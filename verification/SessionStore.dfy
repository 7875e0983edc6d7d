/** The capped store of web-login sessions: pruning, eviction by earliest expiry, and lookup. */
module SessionStore {
  import opened Integers

  const MAX_HTTP_SESSIONS: nat := 8
  const INT64_MAX: i64 := TWO_TO_63 - 1

  /** One member of the JSON object: cookie and expiry in microseconds. */
  datatype Session = Session(key: string, expiry: i64)

  datatype AuthResult = Ok | SessionInvalid | SessionExpired

  ghost predicate DistinctKeys(s: seq<Session>) {
    forall i, j :: 0 <= i < j < |s| ==> s[i].key != s[j].key
  }

  /** Stores as `processLogin` builds them. */
  ghost predicate WellFormed(s: seq<Session>) {
    && DistinctKeys(s)
    && forall i :: 0 <= i < |s| ==> Evictable(s[i])
  }

  predicate Evictable(e: Session) {
    e.key != "" && e.expiry < INT64_MAX
  }

  ghost function Keys(s: seq<Session>): set<string> {
    set e | e in s :: e.key
  }

  ghost function Elements(keys: seq<string>): set<string> {
    set k | k in keys
  }

  function Unexpired(s: seq<Session>, now: i64): seq<Session> {
    if s == [] then [] else (if s[0].expiry <= now then [] else [s[0]]) + Unexpired(s[1..], now)
  }

  /** `s` without the members whose key is in `keys`, order and values kept. */
  ghost function Without(s: seq<Session>, keys: set<string>): seq<Session> {
    if s == [] then [] else (if s[0].key in keys then [] else [s[0]]) + Without(s[1..], keys)
  }

  function RemoveKey(s: seq<Session>, key: string): (r: seq<Session>)
    ensures |s| - 1 <= |r| <= |s|
    ensures |r| == |s| ==> r == s
  {
    if s == [] then [] else if s[0].key == key then s[1..] else [s[0]] + RemoveKey(s[1..], key)
  }

  /** The member the scan of pass 2 settles on among the first `n`: the first of least expiry, or -1. */
  function EarliestAmong(s: seq<Session>, n: nat): (k: int)
    requires n <= |s|
    ensures -1 <= k < n
    ensures k == -1 ==> forall j :: 0 <= j < n ==> s[j].expiry == INT64_MAX
    ensures k >= 0 ==> s[k].expiry < INT64_MAX
    ensures k >= 0 ==> forall j :: 0 <= j < n ==> s[k].expiry <= s[j].expiry && (j < k ==> s[k].expiry < s[j].expiry)
  {
    if n == 0 then -1
    else
      var k := EarliestAmong(s, n - 1);
      if s[n - 1].expiry < (if k == -1 then INT64_MAX else s[k].expiry) then n - 1 else k
  }

  /** Order of eviction: by expiry, then by position in the object. */
  predicate Earlier(s: seq<Session>, i: nat, j: nat)
    requires i < |s| && j < |s|
  {
    s[i].expiry < s[j].expiry || (s[i].expiry == s[j].expiry && i < j)
  }

  function EarliestKey(s: seq<Session>): string {
    var k := EarliestAmong(s, |s|);
    if k == -1 then "" else s[k].key
  }

  function EvictToCap(s: seq<Session>): seq<Session>
    decreases |s|
  {
    if |s| < MAX_HTTP_SESSIONS || EarliestKey(s) == "" then s
    else
      var r := RemoveKey(s, EarliestKey(s));
      if |r| < |s| then EvictToCap(r) else s
  }

  function Prune(s: seq<Session>, now: i64): seq<Session> {
    EvictToCap(Unexpired(s, now))
  }

  function IndexOf(s: seq<Session>, key: string): (i: nat)
    ensures i <= |s| && (i < |s| ==> s[i].key == key)
    ensures forall j :: 0 <= j < i ==> s[j].key != key
  {
    if s == [] || s[0].key == key then 0 else 1 + IndexOf(s[1..], key)
  }

  /** Assignment through `operator[]` of a JSON object. */
  function Put(s: seq<Session>, key: string, expiry: i64): seq<Session> {
    var i := IndexOf(s, key);
    if i < |s| then s[i := Session(key, expiry)] else s + [Session(key, expiry)]
  }

  function Authenticate(s: seq<Session>, cookie: string, now: i64): AuthResult {
    var i := IndexOf(s, cookie);
    if i == |s| then SessionInvalid
    else if s[i].expiry <= now then SessionExpired
    else Ok
  }

  class Store {
    var sessions: seq<Session>

    constructor ()
      ensures sessions == []
    {
      sessions := [];
    }

    method HasActiveSession(now: i64) returns (active: bool)
      requires DistinctKeys(sessions)
      ensures active <==> exists cookie: string :: Authenticate(sessions, cookie, now) == Ok
    {
      var i := 0;
      while i < |sessions|
        invariant 0 <= i <= |sessions|
        invariant forall j :: 0 <= j < i ==> sessions[j].expiry <= now
      {
        if sessions[i].expiry > now {
          IndexOfMember(sessions, i);
          assert Authenticate(sessions, sessions[i].key, now) == Ok;
          return true;
        }
        i := i + 1;
      }
      active := false;
    }

    /** Pass 1 of `pruneExpiredSessions`: collect the expired keys, then remove them. */
    method RemoveExpired(now: i64)
      requires DistinctKeys(sessions)
      modifies this
      ensures sessions == Unexpired(old(sessions), now) && DistinctKeys(sessions)
    {
      ghost var all := sessions;
      var expired: seq<string> := [];
      var i := 0;
      while i < |sessions|
        invariant 0 <= i <= |sessions| && sessions == all
        invariant forall k :: k in expired <==> exists j :: 0 <= j < i && all[j].expiry <= now && all[j].key == k
      {
        if sessions[i].expiry <= now {
          expired := expired + [sessions[i].key];
        }
        i := i + 1;
      }
      i := 0;
      WithoutNothing(all);
      assert Elements(expired[..0]) == {};
      while i < |expired|
        invariant 0 <= i <= |expired|
        invariant sessions == Without(all, Elements(expired[..i]))
      {
        RemoveIsWithout(all, Elements(expired[..i]), expired[i]);
        assert Elements(expired[..i + 1]) == Elements(expired[..i]) + {expired[i]};
        sessions := RemoveKey(sessions, expired[i]);
        i := i + 1;
      }
      assert expired[..|expired|] == expired;
      UnexpiredIsWithout(all, now, Elements(expired));
      UnexpiredKeeps(all, now);
    }

    /** The scan of pass 2. */
    method FindOldest() returns (oldest: string)
      ensures oldest == EarliestKey(sessions)
    {
      oldest := "";
      var oldestTs := INT64_MAX;
      var i := 0;
      while i < |sessions|
        invariant 0 <= i <= |sessions|
        invariant var k := EarliestAmong(sessions, i);
          if k == -1 then oldest == "" && oldestTs == INT64_MAX
          else oldest == sessions[k].key && oldestTs == sessions[k].expiry
      {
        var ts := sessions[i].expiry;
        if ts < oldestTs {
          oldestTs := ts;
          oldest := sessions[i].key;
        }
        i := i + 1;
      }
    }

    /** `pruneExpiredSessions`: no assumption on keys or expiries, and it always terminates. */
    method PruneExpiredSessions(now: i64)
      requires DistinctKeys(sessions)
      modifies this
      ensures sessions == Prune(old(sessions), now) && DistinctKeys(sessions)
    {
      RemoveExpired(now);
      while |sessions| >= MAX_HTTP_SESSIONS
        invariant DistinctKeys(sessions)
        invariant EvictToCap(sessions) == Prune(old(sessions), now)
        decreases |sessions|
      {
        var oldest := FindOldest();
        if oldest == "" {
          break;
        }
        RemoveDistinct(sessions, oldest);
        sessions := RemoveKey(sessions, oldest);
      }
    }

    /** The session part of a successful login: prune, then store the new cookie. */
    method OpenSession(cookie: string, expiry: i64, now: i64)
      requires DistinctKeys(sessions)
      modifies this
      ensures sessions == Put(Prune(old(sessions), now), cookie, expiry)
    {
      PruneExpiredSessions(now);
      sessions := Put(sessions, cookie, expiry);
    }

    /** The session part of a logout. */
    method CloseSession(cookie: string)
      modifies this
      ensures sessions == RemoveKey(old(sessions), cookie)
    {
      sessions := RemoveKey(sessions, cookie);
    }

    /** `clearSessions`, with a file system to write the empty store to. */
    method ClearSessions(fsReady: bool)
      modifies this
      ensures sessions == if fsReady then [] else old(sessions)
    {
      if fsReady {
        sessions := [];
      }
    }
  }

  // ----- members and keys

  lemma {:induction false} IndexOfMember(s: seq<Session>, i: nat)
    requires DistinctKeys(s) && i < |s|
    ensures IndexOf(s, s[i].key) == i
  {
  }

  lemma {:induction false} UnexpiredMembers(s: seq<Session>, now: i64, e: Session)
    ensures e in Unexpired(s, now) <==> e in s && e.expiry > now
  {
    if s == [] {
    } else {
      UnexpiredMembers(s[1..], now, e);
      assert e in s <==> e == s[0] || e in s[1..];
    }
  }

  lemma {:induction false} UnexpiredKeeps(s: seq<Session>, now: i64)
    requires DistinctKeys(s)
    ensures DistinctKeys(Unexpired(s, now))
  {
    if s == [] {
    } else {
      UnexpiredKeeps(s[1..], now);
      forall e | e in Unexpired(s[1..], now)
        ensures e.key != s[0].key
      {
        UnexpiredMembers(s[1..], now, e);
      }
    }
  }

  lemma {:induction false} WithoutNothing(s: seq<Session>)
    ensures Without(s, {}) == s
  {
    if s == [] {
    } else {
      WithoutNothing(s[1..]);
    }
  }

  lemma {:induction false} WithoutMembers(s: seq<Session>, keys: set<string>, e: Session)
    ensures e in Without(s, keys) <==> e in s && e.key !in keys
  {
    if s == [] {
    } else {
      WithoutMembers(s[1..], keys, e);
      assert e in s <==> e == s[0] || e in s[1..];
    }
  }

  lemma {:induction false} RemoveMissing(s: seq<Session>, key: string)
    requires forall e :: e in s ==> e.key != key
    ensures RemoveKey(s, key) == s
  {
    if s == [] {
    } else {
      assert s[0] in s;
      RemoveMissing(s[1..], key);
    }
  }

  lemma {:induction false} RemoveIsWithout(s: seq<Session>, keys: set<string>, key: string)
    requires DistinctKeys(s)
    ensures RemoveKey(Without(s, keys), key) == Without(s, keys + {key})
  {
    if s == [] {
    } else {
      RemoveIsWithout(s[1..], keys, key);
      var rest := Without(s[1..], keys);
      assert ([s[0]] + rest)[1..] == rest && [] + rest == rest;
      assert [] + Without(s[1..], keys + {key}) == Without(s[1..], keys + {key});
      if s[0].key == key {
        forall e | e in Without(s[1..], keys)
          ensures e.key != key
        {
          WithoutMembers(s[1..], keys, e);
        }
        RemoveMissing(rest, key);
      }
    }
  }

  lemma {:induction false} UnexpiredIsWithout(s: seq<Session>, now: i64, keys: set<string>)
    requires forall j :: 0 <= j < |s| ==> (s[j].key in keys <==> s[j].expiry <= now)
    ensures Unexpired(s, now) == Without(s, keys)
  {
    if s == [] {
    } else {
      UnexpiredIsWithout(s[1..], now, keys);
    }
  }

  lemma RemoveDistinct(s: seq<Session>, key: string)
    requires DistinctKeys(s) && exists k :: 0 <= k < |s| && s[k].key == key
    ensures DistinctKeys(RemoveKey(s, key)) && |RemoveKey(s, key)| == |s| - 1
    ensures RemoveKey(s, key) == s[..IndexOf(s, key)] + s[IndexOf(s, key) + 1..]
  {
    RemoveAtIndex(s, key);
  }

  lemma {:induction false} RemoveAtIndex(s: seq<Session>, key: string)
    requires IndexOf(s, key) < |s|
    ensures RemoveKey(s, key) == s[..IndexOf(s, key)] + s[IndexOf(s, key) + 1..]
  {
    if s[0].key == key {
    } else {
      RemoveAtIndex(s[1..], key);
      var i := IndexOf(s, key);
      assert s[..i] == [s[0]] + s[1..][..i - 1];
      assert s[i + 1..] == s[1..][i..];
    }
  }
}
