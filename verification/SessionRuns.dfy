/** What pruning keeps, and what a session is promised over runs of logins and logouts. */
module SessionRuns {
  import opened Integers
  import opened Sets
  import opened SessionStore

  // ----- pruning against its specification

  ghost predicate AllEvictable(s: seq<Session>) {
    forall e :: e in s ==> Evictable(e)
  }

  lemma {:induction false} WithoutTwice(s: seq<Session>, a: set<string>, b: set<string>)
    ensures Without(Without(s, a), b) == Without(s, a + b)
  {
    if s == [] {
    } else {
      WithoutTwice(s[1..], a, b);
      var rest := Without(s[1..], a);
      assert ([s[0]] + rest)[1..] == rest && [] + rest == rest;
    }
  }

  /** Removing the member at `k`, three ways. */
  lemma RemovalAt(u: seq<Session>, k: nat)
    requires DistinctKeys(u) && k < |u|
    ensures var u' := Without(u, {u[k].key});
      RemoveKey(u, u[k].key) == u' == u[..k] + u[k + 1..] && DistinctKeys(u') && |u'| == |u| - 1
  {
    IndexOfMember(u, k);
    RemoveDistinct(u, u[k].key);
    WithoutNothing(u);
    RemoveIsWithout(u, {}, u[k].key);
    assert {} + {u[k].key} == {u[k].key};
  }

  lemma KeysAfterRemoval(u: seq<Session>, key: string)
    ensures Keys(Without(u, {key})) == Keys(u) - {key}
    ensures forall e :: e in Without(u, {key}) ==> e in u && e.key != key
  {
    forall e ensures e in Without(u, {key}) <==> e in u && e.key !in {key} {
      WithoutMembers(u, {key}, e);
    }
  }

  /** One round of eviction: what is left of a non-empty store. */
  lemma EvictionRound(u: seq<Session>) returns (k: nat, u': seq<Session>)
    requires DistinctKeys(u) && AllEvictable(u) && u != []
    ensures k < |u| && u' == Without(u, {u[k].key}) && |u'| == |u| - 1
    ensures DistinctKeys(u') && AllEvictable(u')
    ensures |u| >= MAX_HTTP_SESSIONS ==> EvictToCap(u) == EvictToCap(u')
    ensures forall j :: 0 <= j < |u| && j != k ==> Earlier(u, k, j)
  {
    hide Without, DistinctKeys;
    assert u[0] in u;
    k := EarliestAmong(u, |u|);
    assert u[k] in u;
    u' := Without(u, {u[k].key});
    RemovalAt(u, k);
    KeysAfterRemoval(u, u[k].key);
  }

  /** Eviction stops at seven and neither alters nor reorders what it keeps. */
  lemma {:induction false} EvictionKeeps(u: seq<Session>)
    requires DistinctKeys(u) && AllEvictable(u)
    ensures var r := EvictToCap(u);
      && |r| == (if |u| < MAX_HTTP_SESSIONS then |u| else MAX_HTTP_SESSIONS - 1)
      && DistinctKeys(r)
      && r == Without(u, Keys(u) - Keys(r))
      && (forall e :: e in r ==> e in u)
    decreases |u|
  {
    if |u| < MAX_HTTP_SESSIONS {
      assert Keys(u) - Keys(u) == {};
      WithoutNothing(u);
    } else {
      hide Without, DistinctKeys, EvictToCap, AllEvictable;
      var k, u' := EvictionRound(u);
      EvictionKeeps(u');
      KeptAfterRound(u, u[k].key, u', EvictToCap(u'));
    }
  }

  lemma KeptAfterRound(u: seq<Session>, key: string, u': seq<Session>, r: seq<Session>)
    requires u' == Without(u, {key}) && key in Keys(u)
    requires r == Without(u', Keys(u') - Keys(r)) && (forall e :: e in r ==> e in u')
    ensures r == Without(u, Keys(u) - Keys(r)) && (forall e :: e in r ==> e in u)
  {
    KeysAfterRemoval(u, key);
    WithoutTwice(u, {key}, Keys(u') - Keys(r));
    assert Keys(u) - Keys(r) == {key} + (Keys(u') - Keys(r));
  }

  /** ... and what it drops expires before what it keeps. */
  lemma {:induction false} EvictionOrder(u: seq<Session>, r: seq<Session>, i: nat, j: nat)
    requires DistinctKeys(u) && AllEvictable(u) && r == EvictToCap(u)
    requires i < |u| && j < |u| && u[i] !in r && u[j] in r
    ensures Earlier(u, i, j)
    decreases |u|
  {
    if |u| < MAX_HTTP_SESSIONS {
    } else {
      var k, u' := EvictionRound(u);
      if i != k {
        EvictionKeeps(u');
        KeysAfterRemoval(u, u[k].key);
        PositionAfterRemoval(u, k, u', i);
        PositionAfterRemoval(u, k, u', j);
        EvictionOrder(u', r, if i < k then i else i - 1, if j < k then j else j - 1);
      }
    }
  }

  lemma PositionAfterRemoval(u: seq<Session>, k: nat, u': seq<Session>, i: nat)
    requires DistinctKeys(u) && k < |u| && u' == Without(u, {u[k].key}) && i < |u| && i != k
    ensures var i' := if i < k then i else i - 1; 0 <= i' < |u'| && u'[i'] == u[i]
  {
    RemovalAt(u, k);
    SpliceIndex(u, k, i);
  }

  lemma SpliceIndex<T>(u: seq<T>, k: nat, i: nat)
    requires k < |u| && i < |u| && i != k
    ensures (u[..k] + u[k + 1..])[if i < k then i else i - 1] == u[i]
  {
  }

  /**
   * The pruning theorem. From any well-formed store the result holds at most seven sessions, all
   * unexpired and unaltered; a session goes exactly when it has expired or belongs to the surplus,
   * and the surplus is the part of the unexpired sessions that expires earliest.
   */
  lemma PruneMeaning(s: seq<Session>, now: i64)
    requires WellFormed(s)
    ensures var u := Unexpired(s, now);
      var r := Prune(s, now);
      && |r| == (if |u| < 8 then |u| else 7)
      && (forall e :: e in u <==> e in s && e.expiry > now)
      && WellFormed(r) && r == Without(u, Keys(u) - Keys(r))
      && (forall i, j :: 0 <= i < |u| && 0 <= j < |u| && u[i] !in r && u[j] in r ==> Earlier(u, i, j))
  {
    var u := Unexpired(s, now);
    var r := Prune(s, now);
    UnexpiredKeeps(s, now);
    forall e ensures e in u <==> e in s && e.expiry > now {
      UnexpiredMembers(s, now, e);
    }
    EvictionKeeps(u);
    forall i, j | 0 <= i < |u| && 0 <= j < |u| && u[i] !in r && u[j] in r
      ensures Earlier(u, i, j)
    {
      EvictionOrder(u, r, i, j);
    }
    forall i | 0 <= i < |r|
      ensures Evictable(r[i])
    {
      WithoutMembers(u, Keys(u) - Keys(r), r[i]);
      assert r[i] in r;
    }
  }

  // ----- stores with members that cannot be evicted

  /** The members that outlive member `i` in the order of eviction. */
  ghost function Later(u: seq<Session>, i: nat): set<Session>
    requires i < |u|
  {
    set j | 0 <= j < |u| && Earlier(u, i, j) :: u[j]
  }

  /** The member the scan of pass 2 would have to remove next. */
  ghost function First(u: seq<Session>): (k: nat)
    requires u != []
    ensures k < |u| && forall j :: 0 <= j < |u| && j != k ==> Earlier(u, k, j)
  {
    var k := EarliestAmong(u, |u|);
    if k == -1 then 0 else k
  }

  ghost function Members(u: seq<Session>): set<Session> {
    set e | e in u
  }

  lemma MembersSize(u: seq<Session>)
    requires DistinctKeys(u)
    ensures |Members(u)| == |u|
  {
    DistinctSize(u);
  }

  lemma LaterThanFirst(u: seq<Session>)
    requires DistinctKeys(u) && u != []
    ensures |Later(u, First(u))| == |u| - 1
  {
    var k := First(u);
    MembersSize(u);
    forall e ensures e in Later(u, k) <==> e in Members(u) - {u[k]} {
      if e in Members(u) - {u[k]} {
        var j :| 0 <= j < |u| && u[j] == e;
        assert Earlier(u, k, j);
      }
    }
    assert Later(u, k) == Members(u) - {u[k]};
  }

  lemma LaterThanAnother(u: seq<Session>, i: nat)
    requires DistinctKeys(u) && i < |u| && i != First(u)
    ensures |Later(u, i)| <= |u| - 2
  {
    hide DistinctKeys;
    var k := First(u);
    MembersSize(u);
    var rest := Members(u) - {u[k]} - {u[i]};
    forall e | e in Later(u, i)
      ensures e in rest
    {
      var j :| 0 <= j < |u| && Earlier(u, i, j) && u[j] == e;
      DifferentPositions(u, k, j);
      DifferentPositions(u, i, j);
    }
    DifferentPositions(u, k, i);
    SubsetSize(Later(u, i), rest);
  }

  lemma DifferentPositions(u: seq<Session>, i: nat, j: nat)
    requires DistinctKeys(u) && i < |u| && j < |u| && i != j
    ensures u[i] != u[j]
  {
  }

  /** Position `i` before a removal at `k` is position `Moved(i, k)` after it. */
  function Moved(i: nat, k: nat): nat
    requires i != k
  {
    if i < k then i else i - 1
  }

  lemma EarlierAfterRemoval(u: seq<Session>, k: nat, u': seq<Session>, i: nat, j: nat)
    requires DistinctKeys(u) && k < |u| && u' == Without(u, {u[k].key})
    requires i < |u| && i != k && j < |u| && j != k
    ensures Moved(i, k) < |u'| && Moved(j, k) < |u'| && u'[Moved(i, k)] == u[i] && u'[Moved(j, k)] == u[j]
    ensures Earlier(u', Moved(i, k), Moved(j, k)) <==> Earlier(u, i, j)
  {
    PositionAfterRemoval(u, k, u', i);
    PositionAfterRemoval(u, k, u', j);
  }

  lemma LaterAfterRemoval(u: seq<Session>, k: nat, u': seq<Session>, i: nat)
    requires DistinctKeys(u) && k < |u| && u' == Without(u, {u[k].key}) && i < |u| && i != k && Earlier(u, k, i)
    ensures Moved(i, k) < |u'| && u'[Moved(i, k)] == u[i] && Later(u', Moved(i, k)) == Later(u, i)
  {
    EarlierAfterRemoval(u, k, u', i, i);
    LaterIsKept(u, k, u', i);
    LaterIsOld(u, k, u', i);
  }

  lemma LaterIsKept(u: seq<Session>, k: nat, u': seq<Session>, i: nat)
    requires DistinctKeys(u) && k < |u| && u' == Without(u, {u[k].key}) && i < |u| && i != k && Earlier(u, k, i)
    requires Moved(i, k) < |u'|
    ensures Later(u, i) <= Later(u', Moved(i, k))
  {
    hide Without, DistinctKeys;
    forall e | e in Later(u, i)
      ensures e in Later(u', Moved(i, k))
    {
      var j :| 0 <= j < |u| && Earlier(u, i, j) && u[j] == e;
      EarlierAfterRemoval(u, k, u', i, j);
    }
  }

  lemma LaterIsOld(u: seq<Session>, k: nat, u': seq<Session>, i: nat)
    requires DistinctKeys(u) && k < |u| && u' == Without(u, {u[k].key}) && i < |u| && i != k
    requires Moved(i, k) < |u'|
    ensures Later(u', Moved(i, k)) <= Later(u, i)
  {
    hide Without, DistinctKeys;
    LengthAfterRemoval(u, k, u');
    forall e | e in Later(u', Moved(i, k))
      ensures e in Later(u, i)
    {
      var j' :| 0 <= j' < |u'| && Earlier(u', Moved(i, k), j') && u'[j'] == e;
      EarlierAfterRemoval(u, k, u', i, if j' < k then j' else j' + 1);
    }
  }

  lemma LengthAfterRemoval(u: seq<Session>, k: nat, u': seq<Session>)
    requires DistinctKeys(u) && k < |u| && u' == Without(u, {u[k].key})
    ensures |u'| == |u| - 1
  {
    RemovalAt(u, k);
  }

  /** Eviction, member by member: one is kept iff fewer than seven others outlive it. */
  lemma {:induction false} EvictionExactly(u: seq<Session>, i: nat)
    requires DistinctKeys(u) && AllEvictable(u) && i < |u|
    ensures u[i] in EvictToCap(u) <==> |Later(u, i)| < 7
    decreases |u|
  {
    hide Without, DistinctKeys, Later, AllEvictable;
    if |u| < MAX_HTTP_SESSIONS {
      LaterThanFirst(u);
      if i != First(u) { LaterThanAnother(u, i); }
    } else {
      var k, u' := EvictionRound(u);
      EvictionKeeps(u');
      assert k != First(u) ==> Earlier(u, k, First(u)) && Earlier(u, First(u), k);
      if i == k {
        LaterThanFirst(u);
        KeysAfterRemoval(u, u[k].key);
      } else {
        LaterAfterRemoval(u, k, u', i);
        EvictionExactly(u', Moved(i, k));
      }
    }
  }

  /** Every member of the surplus can be evicted: those that at least seven others outlive. */
  ghost predicate SurplusEvictable(u: seq<Session>) {
    forall i :: 0 <= i < |u| && |Later(u, i)| >= MAX_HTTP_SESSIONS - 1 ==> Evictable(u[i])
  }

  lemma SurplusAfterRound(u: seq<Session>, u': seq<Session>)
    requires DistinctKeys(u) && u != [] && Evictable(u[First(u)]) && u' == Without(u, {u[First(u)].key})
    ensures SurplusEvictable(u) <==> SurplusEvictable(u')
  {
    hide Without, DistinctKeys, Later;
    var k := First(u);
    LengthAfterRemoval(u, k, u');
    if SurplusEvictable(u) {
      forall i' | 0 <= i' < |u'| && |Later(u', i')| >= MAX_HTTP_SESSIONS - 1
        ensures Evictable(u'[i'])
      {
        LaterAfterRemoval(u, k, u', if i' < k then i' else i' + 1);
      }
    }
    if SurplusEvictable(u') {
      forall i | 0 <= i < |u| && |Later(u, i)| >= MAX_HTTP_SESSIONS - 1
        ensures Evictable(u[i])
      {
        if i != k { LaterAfterRemoval(u, k, u', i); }
      }
    }
  }

  /**
   * Any store at all: the cap is reached exactly when it already holds or every session of the surplus
   * has a key and an expiry below INT64_MAX.
   */
  lemma {:induction false} CapReachedExactly(u: seq<Session>)
    requires DistinctKeys(u)
    ensures |EvictToCap(u)| < MAX_HTTP_SESSIONS <==> |u| < MAX_HTTP_SESSIONS || SurplusEvictable(u)
    decreases |u|
  {
    if |u| < MAX_HTTP_SESSIONS {
    } else {
      LaterThanFirst(u);
      if EarliestKey(u) != "" {
        var u' := FirstRound(u);
        CapReachedExactly(u');
        SurplusAfterRound(u, u');
        if |u'| < MAX_HTTP_SESSIONS {
          NoSurplusBesidesFirst(u);
        }
      }
    }
  }

  lemma FirstRound(u: seq<Session>) returns (u': seq<Session>)
    requires DistinctKeys(u) && |u| >= MAX_HTTP_SESSIONS && EarliestKey(u) != ""
    ensures Evictable(u[First(u)]) && u' == Without(u, {u[First(u)].key})
    ensures EvictToCap(u) == EvictToCap(u') && DistinctKeys(u') && |u'| == |u| - 1
  {
    hide Without, DistinctKeys;
    var k := First(u);
    RemovalAt(u, k);
    u' := RemoveKey(u, u[k].key);
  }

  lemma NoSurplusBesidesFirst(u: seq<Session>)
    requires DistinctKeys(u) && |u| == MAX_HTTP_SESSIONS && Evictable(u[First(u)])
    ensures SurplusEvictable(u)
  {
    forall i | 0 <= i < |u| && |Later(u, i)| >= MAX_HTTP_SESSIONS - 1
      ensures Evictable(u[i])
    {
      if i != First(u) { LaterThanAnother(u, i); }
    }
  }

  // ----- authentication

  lemma AuthenticateMeaning(s: seq<Session>, cookie: string, now: i64)
    requires DistinctKeys(s)
    ensures Authenticate(s, cookie, now) == Ok <==> exists e :: e in s && e.key == cookie && e.expiry > now
    ensures Authenticate(s, cookie, now) == SessionExpired <==> exists e :: e in s && e.key == cookie && e.expiry <= now
    ensures Authenticate(s, cookie, now) == SessionInvalid <==> cookie !in Keys(s)
  {
    if e :| e in s && e.key == cookie {
      var i :| 0 <= i < |s| && s[i] == e;
      IndexOfMember(s, i);
    }
  }

  lemma PutMeaning(s: seq<Session>, key: string, expiry: i64)
    requires WellFormed(s) && key != "" && expiry < INT64_MAX
    ensures var r := Put(s, key, expiry);
      && WellFormed(r) && |s| <= |r| <= |s| + 1
      && forall e :: e in r <==> e == Session(key, expiry) || (e in s && e.key != key)
  {
    var r := Put(s, key, expiry);
    var i := IndexOf(s, key);
    assert r[i] == Session(key, expiry);
    forall e ensures e in r <==> e == Session(key, expiry) || (e in s && e.key != key) {
      if e in s && e.key != key {
        var j :| 0 <= j < |s| && s[j] == e;
        assert r[j] == e;
      }
      if e in r && e != Session(key, expiry) {
        var j :| 0 <= j < |r| && r[j] == e;
        assert j != i && s[j] == e;
        if i < |s| { IndexOfMember(s, j); }
      }
    }
  }

  /**
   * A successful login leaves at most eight sessions, and the new cookie is good until its expiry.
   */
  lemma LoginMeaning(s: seq<Session>, cookie: string, expiry: i64, now: i64)
    requires WellFormed(s) && cookie != "" && expiry < INT64_MAX
    ensures var r := Put(Prune(s, now), cookie, expiry);
      && WellFormed(r) && |r| <= 8
      && (forall t: i64 :: Authenticate(r, cookie, t) == Ok <==> t < expiry)
  {
    var p := Prune(s, now);
    var r := Put(p, cookie, expiry);
    PruneMeaning(s, now);
    PutMeaning(p, cookie, expiry);
    forall t: i64 ensures Authenticate(r, cookie, t) == Ok <==> t < expiry {
      NewCookieAnswer(p, cookie, expiry, t);
    }
  }

  lemma NewCookieAnswer(p: seq<Session>, cookie: string, expiry: i64, t: i64)
    ensures Authenticate(Put(p, cookie, expiry), cookie, t) == Ok <==> t < expiry
  {
    var i := IndexOf(p, cookie);
    var r := Put(p, cookie, expiry);
    FirstIndex(r, cookie, i);
  }

  lemma {:induction false} FirstIndex(s: seq<Session>, key: string, i: nat)
    requires i < |s| && s[i].key == key && forall j :: 0 <= j < i ==> s[j].key != key
    ensures IndexOf(s, key) == i
  {
  }

  /** No login makes another cookie valid. */
  lemma LoginAddsNoOther(s: seq<Session>, cookie: string, expiry: i64, now: i64, c: string, t: i64)
    requires WellFormed(s) && cookie != "" && expiry < INT64_MAX && c != cookie
    ensures Authenticate(Put(Prune(s, now), cookie, expiry), c, t) == Ok ==> Authenticate(s, c, t) == Ok
  {
    var u, p := Unexpired(s, now), Prune(s, now);
    var r := Put(p, cookie, expiry);
    PruneMeaning(s, now);
    PutMeaning(p, cookie, expiry);
    AuthenticateMeaning(s, c, t);
    AuthenticateMeaning(r, c, t);
    if e :| e in r && e.key == c && e.expiry > t {
      WithoutMembers(u, Keys(u) - Keys(p), e);
    }
  }

  /** A login makes another cookie invalid only by keeping seven sessions that live at least as long. */
  lemma LoginSparesOthers(s: seq<Session>, cookie: string, expiry: i64, now: i64, c: string, t: i64)
    requires WellFormed(s) && cookie != "" && expiry < INT64_MAX && c != cookie && t >= now
    requires Authenticate(s, c, t) == Ok && Authenticate(Put(Prune(s, now), cookie, expiry), c, t) != Ok
    ensures var p := Prune(s, now);
      |p| == MAX_HTTP_SESSIONS - 1 && forall e :: e in p ==> s[IndexOf(s, c)].expiry <= e.expiry
  {
    var u, p := Unexpired(s, now), Prune(s, now);
    var e := s[IndexOf(s, c)];
    UnexpiredMembers(s, now, e);
    if e in p {
      PruneMeaning(s, now);
      KeptCookieAnswer(p, cookie, expiry, e, t);
    }
    UnexpiredStaysEvictable(s, now);
    EvictedBeforeKept(u, p, e);
  }

  lemma KeptCookieAnswer(p: seq<Session>, cookie: string, expiry: i64, e: Session, t: i64)
    requires WellFormed(p) && cookie != "" && expiry < INT64_MAX && e in p && e.key != cookie && e.expiry > t
    ensures Authenticate(Put(p, cookie, expiry), e.key, t) == Ok
  {
    PutMeaning(p, cookie, expiry);
    AuthenticateMeaning(Put(p, cookie, expiry), e.key, t);
  }

  lemma UnexpiredStaysEvictable(s: seq<Session>, now: i64)
    requires WellFormed(s)
    ensures DistinctKeys(Unexpired(s, now)) && AllEvictable(Unexpired(s, now))
  {
    UnexpiredKeeps(s, now);
    forall e | e in Unexpired(s, now)
      ensures Evictable(e)
    {
      UnexpiredMembers(s, now, e);
    }
  }

  lemma EvictedBeforeKept(u: seq<Session>, p: seq<Session>, e: Session)
    requires DistinctKeys(u) && AllEvictable(u) && p == EvictToCap(u) && e in u && e !in p
    ensures |p| == MAX_HTTP_SESSIONS - 1 && forall f :: f in p ==> e.expiry <= f.expiry
  {
    EvictionKeeps(u);
    var i :| 0 <= i < |u| && u[i] == e;
    forall f | f in p
      ensures e.expiry <= f.expiry
    {
      var j :| 0 <= j < |u| && u[j] == f;
      EvictionOrder(u, p, i, j);
    }
  }

  // ----- runs

  datatype Operation = Login(cookie: string, expiry: i64, now: i64) | Logout(cookie: string) | ClearAll

  function Perform(s: seq<Session>, op: Operation): seq<Session> {
    match op
    case Login(cookie, expiry, now) => Put(Prune(s, now), cookie, expiry)
    case Logout(cookie) => RemoveKey(s, cookie)
    case ClearAll => []
  }

  function PerformAll(s: seq<Session>, ops: seq<Operation>): seq<Session>
    decreases |ops|
  {
    if ops == [] then s else PerformAll(Perform(s, ops[0]), ops[1..])
  }

  predicate ProperOperation(op: Operation) {
    op.Login? ==> op.cookie != "" && op.expiry < INT64_MAX
  }

  lemma LogoutMeaning(s: seq<Session>, cookie: string)
    requires WellFormed(s)
    ensures WellFormed(RemoveKey(s, cookie)) && |RemoveKey(s, cookie)| <= |s|
    ensures forall e :: e in RemoveKey(s, cookie) <==> e in s && e.key != cookie
  {
    WithoutNothing(s);
    RemoveIsWithout(s, {}, cookie);
    assert {} + {cookie} == {cookie};
    forall e ensures e in RemoveKey(s, cookie) <==> e in s && e.key != cookie {
      WithoutMembers(s, {cookie}, e);
    }
    RemovalKeepsWellFormed(s, cookie);
  }

  lemma RemovalKeepsWellFormed(s: seq<Session>, cookie: string)
    requires WellFormed(s)
    ensures WellFormed(RemoveKey(s, cookie))
  {
    if IndexOf(s, cookie) < |s| {
      RemoveAtIndex(s, cookie);
    } else {
      RemoveMissing(s, cookie);
    }
  }

  /** The cap holds after every run that starts under it. */
  lemma {:induction false} NeverMoreThanEight(s: seq<Session>, ops: seq<Operation>)
    requires WellFormed(s) && |s| <= 8
    requires forall op :: op in ops ==> ProperOperation(op)
    ensures WellFormed(PerformAll(s, ops)) && |PerformAll(s, ops)| <= 8
    decreases |ops|
  {
    if ops == [] {
    } else {
      assert ops[0] in ops;
      match ops[0] {
        case Login(cookie, expiry, now) => LoginMeaning(s, cookie, expiry, now);
        case Logout(cookie) => LogoutMeaning(s, cookie);
        case ClearAll =>
      }
      NeverMoreThanEight(Perform(s, ops[0]), ops[1..]);
    }
  }

  ghost function NewCookies(ops: seq<Operation>): set<string> {
    set op | op in ops && op.Login? :: op.cookie
  }

  /** Cookies are random 128-bit numbers: every login of the run brings a new one. */
  ghost predicate FreshCookies(s: seq<Session>, ops: seq<Operation>) {
    && (forall i :: 0 <= i < |ops| && ops[i].Login? ==> ops[i].cookie !in Keys(s))
    && (forall i, j :: 0 <= i < j < |ops| && ops[i].Login? && ops[j].Login? ==> ops[i].cookie != ops[j].cookie)
  }

  lemma KeysSize(s: seq<Session>)
    requires DistinctKeys(s)
    ensures |Keys(s)| == |s|
  {
    var keys := seq(|s|, i requires 0 <= i < |s| => s[i].key);
    DistinctSize(keys);
    forall k ensures k in Keys(s) <==> k in keys {
      if k in keys {
        var i :| 0 <= i < |keys| && keys[i] == k;
        assert s[i] in s;
      }
      if k in Keys(s) {
        var e :| e in s && e.key == k;
        var i :| 0 <= i < |s| && s[i] == e;
        assert keys[i] == k;
      }
    }
    assert Keys(s) == set k | k in keys;
  }

  /** One operation of a run with at most eight cookies in play evicts nobody. */
  lemma OperationSpares(s: seq<Session>, op: Operation, e: Session)
    requires WellFormed(s) && ProperOperation(op) && e in s
    requires op.Login? ==> e.expiry > op.now && op.cookie !in Keys(s) && |s| < MAX_HTTP_SESSIONS
    requires !op.ClearAll? && (op.Logout? ==> op.cookie != e.key)
    ensures WellFormed(Perform(s, op)) && e in Perform(s, op)
  {
    match op {
      case Login(cookie, expiry, now) =>
        PruneMeaning(s, now);
        UnexpiredShrinks(s, now);
        PutMeaning(Prune(s, now), cookie, expiry);
      case Logout(cookie) =>
        LogoutMeaning(s, cookie);
      case ClearAll =>
    }
  }

  lemma {:induction false} UnexpiredShrinks(s: seq<Session>, now: i64)
    ensures |Unexpired(s, now)| <= |s|
  {
    if s == [] {
    } else {
      UnexpiredShrinks(s[1..], now);
    }
  }

  lemma KeysAfter(s: seq<Session>, op: Operation)
    requires WellFormed(s) && ProperOperation(op)
    ensures Keys(Perform(s, op)) <= Keys(s) + (if op.Login? then {op.cookie} else {})
  {
    match op {
      case Login(cookie, expiry, now) =>
        PruneMeaning(s, now);
        PutMeaning(Prune(s, now), cookie, expiry);
        var u, p := Unexpired(s, now), Prune(s, now);
        forall e | e in p
          ensures e in s
        {
          WithoutMembers(u, Keys(u) - Keys(p), e);
        }
      case Logout(cookie) =>
        LogoutMeaning(s, cookie);
      case ClearAll =>
    }
  }

  lemma RoomForLogin(s: seq<Session>, ops: seq<Operation>)
    requires DistinctKeys(s) && FreshCookies(s, ops) && ops != [] && ops[0].Login?
    requires |Keys(s) + NewCookies(ops)| <= MAX_HTTP_SESSIONS
    ensures |s| < MAX_HTTP_SESSIONS
  {
    assert ops[0] in ops;
    SubsetSize(Keys(s) + {ops[0].cookie}, Keys(s) + NewCookies(ops));
    KeysSize(s);
  }

  lemma FreshTail(s: seq<Session>, s': seq<Session>, ops: seq<Operation>)
    requires FreshCookies(s, ops) && ops != []
    requires Keys(s') <= Keys(s) + (if ops[0].Login? then {ops[0].cookie} else {})
    ensures FreshCookies(s', ops[1..])
  {
  }

  /** The unexpired sessions that a login would evict later than `e`, a member of `s`. */
  ghost function Outliving(s: seq<Session>, now: i64, e: Session): set<Session> {
    var u := Unexpired(s, now);
    var i := IndexOf(u, e.key);
    if i < |u| then Later(u, i) else {}
  }

  /** The operation ends the session `e`: by its expiry, by eviction, by its own logout, or with all others. */
  ghost predicate Ends(s: seq<Session>, op: Operation, e: Session) {
    match op
    case Login(_, _, now) => e.expiry <= now || |Outliving(s, now, e)| >= 7
    case Logout(cookie) => cookie == e.key
    case ClearAll => true
  }

  lemma PruneEndsExactly(s: seq<Session>, now: i64, e: Session)
    requires WellFormed(s) && e in s
    ensures e in Prune(s, now) <==> e.expiry > now && |Outliving(s, now, e)| < MAX_HTTP_SESSIONS - 1
  {
    hide WellFormed, EvictToCap, Later;
    var u := Unexpired(s, now);
    UnexpiredMembers(s, now, e);
    UnexpiredStaysEvictable(s, now);
    if e in u {
      var i :| 0 <= i < |u| && u[i] == e;
      IndexOfMember(u, i);
      EvictionExactly(u, i);
    } else {
      PrunedMembers(s, now);
    }
  }

  lemma LoginEndsExactly(s: seq<Session>, cookie: string, expiry: i64, now: i64, e: Session)
    requires WellFormed(s) && e in s && cookie != "" && expiry < INT64_MAX && cookie != e.key
    ensures var r := Put(Prune(s, now), cookie, expiry);
      && WellFormed(r)
      && (e in r <==> !Ends(s, Login(cookie, expiry, now), e)) && (e in r <==> e.key in Keys(r))
  {
    hide Put, Prune, Outliving;
    PrunedWellFormed(s, now);
    PutMeaning(Prune(s, now), cookie, expiry);
    PruneEndsExactly(s, now, e);
    PrunedMembers(s, now);
    SameKeySameSession(s, e);
  }

  lemma PrunedWellFormed(s: seq<Session>, now: i64)
    requires WellFormed(s)
    ensures WellFormed(Prune(s, now))
  {
    PruneMeaning(s, now);
  }

  lemma PrunedMembers(s: seq<Session>, now: i64)
    requires WellFormed(s)
    ensures forall f :: f in Prune(s, now) ==> f in s && f.expiry > now
  {
    var u, p := Unexpired(s, now), Prune(s, now);
    PruneMeaning(s, now);
    forall f | f in p
      ensures f in u
    {
      WithoutMembers(u, Keys(u) - Keys(p), f);
    }
  }

  lemma SameKeySameSession(s: seq<Session>, e: Session)
    requires DistinctKeys(s) && e in s
    ensures forall f :: f in s && f.key == e.key ==> f == e
  {
  }

  lemma EndsExactly(s: seq<Session>, op: Operation, e: Session)
    requires WellFormed(s) && ProperOperation(op) && e in s && (op.Login? ==> op.cookie != e.key)
    ensures var r := Perform(s, op);
      WellFormed(r) && (e in r <==> !Ends(s, op, e)) && (e in r <==> e.key in Keys(r))
  {
    match op {
      case Login(cookie, expiry, now) => LoginEndsExactly(s, cookie, expiry, now, e);
      case Logout(cookie) =>
        LogoutMeaning(s, cookie);
        SameKeySameSession(s, e);
      case ClearAll =>
    }
  }

  lemma {:induction false} EndedStaysEnded(s: seq<Session>, ops: seq<Operation>, key: string)
    requires WellFormed(s) && key !in Keys(s)
    requires forall op :: op in ops ==> ProperOperation(op) && (op.Login? ==> op.cookie != key)
    ensures WellFormed(PerformAll(s, ops)) && key !in Keys(PerformAll(s, ops))
    decreases |ops|
  {
    if ops == [] {
    } else {
      assert ops[0] in ops;
      KeysAfter(s, ops[0]);
      OperationKeepsWellFormed(s, ops[0]);
      EndedStaysEnded(Perform(s, ops[0]), ops[1..], key);
    }
  }

  lemma OperationKeepsWellFormed(s: seq<Session>, op: Operation)
    requires WellFormed(s) && ProperOperation(op)
    ensures WellFormed(Perform(s, op))
  {
    match op {
      case Login(cookie, expiry, now) => LoginMeaning(s, cookie, expiry, now);
      case Logout(cookie) => LogoutMeaning(s, cookie);
      case ClearAll =>
    }
  }

  /** No operation of the run ends the session. */
  ghost predicate Spared(s: seq<Session>, ops: seq<Operation>, e: Session) {
    forall k :: 0 <= k < |ops| ==> !Ends(PerformAll(s, ops[..k]), ops[k], e)
  }

  lemma NothingToSpare(s: seq<Session>, e: Session)
    ensures Spared(s, [], e)
  {
  }

  lemma SparedTail(s: seq<Session>, ops: seq<Operation>, e: Session)
    requires ops != []
    ensures Spared(s, ops, e) <==> !Ends(s, ops[0], e) && Spared(Perform(s, ops[0]), ops[1..], e)
  {
    hide Ends, Perform;
    var s', rest := Perform(s, ops[0]), ops[1..];
    assert PerformAll(s, ops[..0]) == s;
    forall k | 1 <= k <= |rest|
      ensures PerformAll(s, ops[..k]) == PerformAll(s', rest[..k - 1]) && ops[k] == rest[k - 1]
    {
      assert ops[..k][1..] == rest[..k - 1];
    }
    if Spared(s, ops, e) {
      assert !Ends(PerformAll(s, ops[..0]), ops[0], e);
      forall k | 0 <= k < |rest|
        ensures !Ends(PerformAll(s', rest[..k]), rest[k], e)
      {
        assert !Ends(PerformAll(s, ops[..k + 1]), ops[k + 1], e);
      }
    }
  }

  /**
   * Exactly when a session survives, over every run of logins, logouts and clearings in which no login
   * brings its cookie again: iff it is never logged out or cleared away and at every login it has not
   * expired and fewer than seven unexpired sessions outlive it. What has ended is never accepted again.
   */
  lemma {:induction false} SessionSurvivesExactly(s: seq<Session>, ops: seq<Operation>, e: Session)
    requires WellFormed(s) && e in s
    requires forall op :: op in ops ==> ProperOperation(op) && (op.Login? ==> op.cookie != e.key)
    ensures var r := PerformAll(s, ops);
      && (e in r <==> Spared(s, ops, e))
      && (forall t: i64 :: Authenticate(r, e.key, t) == Ok <==> Spared(s, ops, e) && t < e.expiry)
    decreases |ops|
  {
    hide Ends, Perform, Spared, Authenticate;
    if ops == [] {
      NothingToSpare(s, e);
      AnswersOf(s, e);
    } else {
      var op, rest := ops[0], ops[1..];
      assert op in ops;
      var s' := Perform(s, op);
      EndsExactly(s, op, e);
      SparedTail(s, ops, e);
      if e in s' {
        SessionSurvivesExactly(s', rest, e);
      } else {
        EndedStaysEnded(s', rest, e.key);
        AnswersOf(PerformAll(s, ops), e);
      }
    }
  }

  lemma AnswersOf(s: seq<Session>, e: Session)
    requires DistinctKeys(s) && (e in s || e.key !in Keys(s))
    ensures e in s <==> e.key in Keys(s)
    ensures forall t: i64 :: Authenticate(s, e.key, t) == Ok <==> e in s && t < e.expiry
  {
    forall t: i64 ensures Authenticate(s, e.key, t) == Ok <==> e in s && t < e.expiry {
      AuthenticateMeaning(s, e.key, t);
      if e in s { SameKeySameSession(s, e); }
    }
  }

  /**
   * A session lives until it expires: while at most eight cookies are in play, no run of logins and
   * logouts of other sessions ends it early.
   */
  lemma {:induction false} SessionSurvives(s: seq<Session>, ops: seq<Operation>, e: Session)
    requires WellFormed(s) && e in s
    requires |Keys(s) + NewCookies(ops)| <= MAX_HTTP_SESSIONS && FreshCookies(s, ops)
    requires forall op :: op in ops ==>
      ProperOperation(op) && match op
        case Login(_, _, now) => now < e.expiry
        case Logout(cookie) => cookie != e.key
        case ClearAll => false
    ensures e in PerformAll(s, ops)
    ensures forall t: i64 :: t < e.expiry ==> Authenticate(PerformAll(s, ops), e.key, t) == Ok
    decreases |ops|
  {
    if ops == [] {
      forall t: i64 | t < e.expiry
        ensures Authenticate(s, e.key, t) == Ok
      {
        AuthenticateMeaning(s, e.key, t);
      }
    } else {
      var op, rest := ops[0], ops[1..];
      assert op in ops;
      var s' := Perform(s, op);
      if op.Login? {
        RoomForLogin(s, ops);
      }
      OperationSpares(s, op, e);
      KeysAfter(s, op);
      assert NewCookies(rest) <= NewCookies(ops);
      SubsetSize(Keys(s') + NewCookies(rest), Keys(s) + NewCookies(ops));
      FreshTail(s, s', ops);
      SessionSurvives(s', rest, e);
    }
  }
}
