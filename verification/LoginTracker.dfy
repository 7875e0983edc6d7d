/** Brute-force protection of the web login: eight in-place slots standing in for an unbounded table. */
module LoginTracker {
  import opened Integers
  import opened Options
  import opened AuthUtils

  const LOGIN_MAX_ATTEMPTS: nat := 5
  const LOGIN_LOCKOUT_MS: int := 30000
  const LOGIN_TRACKER_SIZE: nat := 8

  /** A client address that fits the 16-byte field of a slot. */
  type Address = s: CString | 1 <= |s| <= 15 witness [49]

  datatype LoginAttempt = LoginAttempt(ip: CString, count: nat, lockedUntil: int)

  const FREE := LoginAttempt([], 0, 0)

  /** One call of `processLogin`, with the outcome of the credential comparison. */
  datatype Attempt = Attempt(ip: Address, now: Millis, credentialsOk: bool)

  // ----- the reference: one account per address, never forgotten

  datatype Account = Account(count: nat, lockedUntil: int)

  const CLEAN := Account(0, 0)

  type Table = map<CString, Account>

  function Lookup(t: Table, ip: CString): Account {
    if ip in t then t[ip] else CLEAN
  }

  function AccountStep(a: Account, now: Millis, credentialsOk: bool): (Account, bool) {
    if a.lockedUntil > now then (a, false)
    else if credentialsOk then (CLEAN, true)
    else
      var count := (if a.lockedUntil > 0 then 0 else a.count) + 1;
      (Account(count, if count >= LOGIN_MAX_ATTEMPTS then now + LOGIN_LOCKOUT_MS else 0), false)
  }

  function TableStep(t: Table, a: Attempt): (Table, bool) {
    var (account, accepted) := AccountStep(Lookup(t, a.ip), a.now, a.credentialsOk);
    (if account == CLEAN then t - {a.ip} else t[a.ip := account], accepted)
  }

  function RunTable(t: Table, attempts: seq<Attempt>): (Table, seq<bool>)
    decreases |attempts|
  {
    if attempts == [] then (t, [])
    else
      var (t', accepted) := TableStep(t, attempts[0]);
      var (t'', rest) := RunTable(t', attempts[1..]);
      (t'', [accepted] + rest)
  }

  // ----- the eight slots

  function AccountOf(e: LoginAttempt): Account {
    Account(e.count, e.lockedUntil)
  }

  predicate Expired(e: LoginAttempt, now: Millis) {
    e.lockedUntil > 0 && e.lockedUntil <= now
  }

  predicate Locked(e: LoginAttempt, now: Millis) {
    e.lockedUntil > now
  }

  ghost predicate Valid(s: seq<LoginAttempt>) {
    && |s| == LOGIN_TRACKER_SIZE
    && (forall i :: 0 <= i < |s| ==> ValidSlot(s[i]))
    && (forall i, j :: 0 <= i < j < |s| && s[i].ip != [] ==> s[i].ip != s[j].ip)
  }

  ghost predicate ValidSlot(e: LoginAttempt) {
    && e.count <= LOGIN_MAX_ATTEMPTS
    && e.lockedUntil >= 0
    && (e.count == LOGIN_MAX_ATTEMPTS <==> e.lockedUntil > 0)
    && (if e.ip == [] then e == FREE else e.count >= 1)
  }

  /** The first slot holding `ip`, or the number of slots. */
  function Find(s: seq<LoginAttempt>, ip: CString): (i: nat)
    ensures i <= |s| && (i < |s| ==> s[i].ip == ip)
    ensures forall j :: 0 <= j < i ==> s[j].ip != ip
  {
    if s == [] || s[0].ip == ip then 0 else 1 + Find(s[1..], ip)
  }

  /** The eviction candidate after scanning the first `n` slots. */
  function Candidate(s: seq<LoginAttempt>, now: Millis, n: nat): (c: nat)
    requires 1 <= n <= |s|
    ensures c < n
  {
    if n == 1 then 0
    else
      var c := Candidate(s, now, n - 1);
      if Expired(s[n - 1], now) || s[n - 1].count < s[c].count then n - 1 else c
  }

  function Target(s: seq<LoginAttempt>, ip: CString, now: Millis): (i: nat)
    requires |s| == LOGIN_TRACKER_SIZE
    ensures i < |s|
  {
    if Find(s, ip) < |s| then Find(s, ip)
    else if Find(s, []) < |s| then Find(s, [])
    else Candidate(s, now, |s|)
  }

  /** The address that loses its slot to this attempt. */
  function Evicted(s: seq<LoginAttempt>, a: Attempt): Option<CString>
    requires |s| == LOGIN_TRACKER_SIZE
  {
    var e := s[Target(s, a.ip, a.now)];
    if e.ip == a.ip || e.ip == [] then None else Some(e.ip)
  }

  function LoginStep(s: seq<LoginAttempt>, a: Attempt): (r: (seq<LoginAttempt>, bool))
    requires |s| == LOGIN_TRACKER_SIZE
    ensures |r.0| == |s|
  {
    var i := Target(s, a.ip, a.now);
    var before := if s[i].ip == a.ip then AccountOf(s[i]) else CLEAN;
    var (after, accepted) := AccountStep(before, a.now, a.credentialsOk);
    (s[i := if accepted then FREE else LoginAttempt(a.ip, after.count, after.lockedUntil)], accepted)
  }

  function RunTracker(s: seq<LoginAttempt>, attempts: seq<Attempt>): (r: (seq<LoginAttempt>, seq<bool>))
    requires |s| == LOGIN_TRACKER_SIZE
    ensures |r.0| == |s| && |r.1| == |attempts|
    decreases attempts
  {
    if attempts == [] then (s, [])
    else
      var (s', accepted) := LoginStep(s, attempts[0]);
      var (s'', rest) := RunTracker(s', attempts[1..]);
      (s'', [accepted] + rest)
  }

  function Residents(s: seq<LoginAttempt>): set<CString> {
    set i | 0 <= i < |s| && s[i].ip != [] :: s[i].ip
  }

  /** The table a tracker stands for. */
  function Accounts(s: seq<LoginAttempt>): Table {
    map ip | ip in Residents(s) :: AccountOf(s[Find(s, ip)])
  }

  predicate CredentialsMatch(username: Option<CString>, password: Option<CString>,
                             credUser: CString, credPassword: CString) {
    && username.Some? && password.Some?
    && username.value != [] && password.value != []
    && username.value == credUser && password.value == credPassword
  }

  class Tracker {
    const loginAttempts: array<LoginAttempt>

    constructor ()
      ensures fresh(loginAttempts) && Valid(loginAttempts[..]) && Accounts(loginAttempts[..]) == map[]
    {
      loginAttempts := new LoginAttempt[LOGIN_TRACKER_SIZE](_ => FREE);
    }

    /** The scan at the head of `processLogin`: the slot of this address, else a free one, else a victim. */
    method FindSlot(remoteIp: Address, now: Millis) returns (entry: nat)
      requires loginAttempts.Length == LOGIN_TRACKER_SIZE
      ensures entry == Target(loginAttempts[..], remoteIp, now)
    {
      ghost var s := loginAttempts[..];
      var found, freeSlot, evictCandidate := -1, -1, -1;
      var i := 0;
      while i < LOGIN_TRACKER_SIZE
        invariant 0 <= i <= LOGIN_TRACKER_SIZE && found == -1
        invariant forall j :: 0 <= j < i ==> s[j].ip != remoteIp
        invariant if freeSlot == -1 then forall j :: 0 <= j < i ==> s[j].ip != []
                  else 0 <= freeSlot < i && s[freeSlot].ip == [] && forall j :: 0 <= j < freeSlot ==> s[j].ip != []
        invariant evictCandidate == if i == 0 then -1 else Candidate(s, now, i)
      {
        var slot := loginAttempts[i];
        if slot.ip == remoteIp {
          found := i;
          break;
        }
        if slot.ip == [] && freeSlot == -1 {
          freeSlot := i;
        }
        if evictCandidate == -1
           || (slot.lockedUntil > 0 && slot.lockedUntil <= now)
           || slot.count < loginAttempts[evictCandidate].count {
          evictCandidate := i;
        }
        i := i + 1;
      }
      entry := if found != -1 then found else if freeSlot != -1 then freeSlot else evictCandidate;
    }

    /** `processLogin`, up to the session it opens on success. */
    method ProcessLogin(remoteIp: Address, now: Millis, username: Option<CString>, password: Option<CString>,
                        credUser: CString, credPassword: CString)
      returns (accepted: bool)
      requires Valid(loginAttempts[..])
      requires username.Some? ==> |username.value| < SIZE_LIMIT
      requires password.Some? ==> |password.value| < SIZE_LIMIT
      requires |credUser| < SIZE_LIMIT && |credPassword| < SIZE_LIMIT
      modifies loginAttempts
      ensures var a := Attempt(remoteIp, now, CredentialsMatch(username, password, credUser, credPassword));
        (loginAttempts[..], accepted) == LoginStep(old(loginAttempts[..]), a)
      ensures accepted <==>
        && (forall i :: 0 <= i < LOGIN_TRACKER_SIZE && old(loginAttempts[..])[i].ip == remoteIp
              ==> old(loginAttempts[..])[i].lockedUntil <= now)
        && credUser != [] && credPassword != [] && username == Some(credUser) && password == Some(credPassword)
      ensures Valid(loginAttempts[..])
    {
      ghost var s := loginAttempts[..];
      ghost var a := Attempt(remoteIp, now, CredentialsMatch(username, password, credUser, credPassword));
      StepKeepsValid(s, a);
      AcceptedExactly(s, remoteIp, now, username, password, credUser, credPassword);
      var entry := FindSlot(remoteIp, now);
      if loginAttempts[entry].ip != remoteIp {
        loginAttempts[entry] := LoginAttempt(remoteIp, 0, 0);
      }
      assert loginAttempts[..] == s[entry := if s[entry].ip == remoteIp then s[entry] else LoginAttempt(remoteIp, 0, 0)];
      if loginAttempts[entry].lockedUntil > now {
        assert loginAttempts[..] == s[entry := s[entry]];
        return false;
      }
      if loginAttempts[entry].lockedUntil > 0 && loginAttempts[entry].lockedUntil <= now {
        loginAttempts[entry] := loginAttempts[entry].(count := 0, lockedUntil := 0);
      }
      if username.Some? && password.Some? {
        if username.value != [] && password.value != [] {
          var userOk := ConstTimeStrEqual(username.value, credUser);
          var passwordOk := false;
          if userOk {
            passwordOk := ConstTimeStrEqual(password.value, credPassword);
          }
          if userOk && passwordOk {
            loginAttempts[entry] := FREE;
            assert loginAttempts[..] == s[entry := FREE];
            return true;
          }
        }
      }
      loginAttempts[entry] := loginAttempts[entry].(count := loginAttempts[entry].count + 1);
      if loginAttempts[entry].count >= LOGIN_MAX_ATTEMPTS {
        loginAttempts[entry] := loginAttempts[entry].(lockedUntil := now + LOGIN_LOCKOUT_MS);
      }
      assert loginAttempts[..] == s[entry := loginAttempts[entry]];
      accepted := false;
    }
  }

  // ----- one step

  /** Who gets in: an address that is not locked out, with both stored credentials, neither of them empty. */
  lemma AcceptedExactly(s: seq<LoginAttempt>, remoteIp: Address, now: Millis, username: Option<CString>,
                        password: Option<CString>, credUser: CString, credPassword: CString)
    requires Valid(s)
    ensures LoginStep(s, Attempt(remoteIp, now, CredentialsMatch(username, password, credUser, credPassword))).1 <==>
      && (forall i :: 0 <= i < |s| && s[i].ip == remoteIp ==> s[i].lockedUntil <= now)
      && credUser != [] && credPassword != [] && username == Some(credUser) && password == Some(credPassword)
  {
    forall i | 0 <= i < |s| && s[i].ip == remoteIp
      ensures Find(s, remoteIp) == i
    {
      FindResident(s, i);
    }
  }

  /** The failures of `ip` that still count at `now`. */
  function Failures(s: seq<LoginAttempt>, ip: CString, now: Millis): nat {
    var i := Find(s, ip);
    if i == |s| || 0 < s[i].lockedUntil <= now then 0 else s[i].count
  }

  /**
   * What an attempt leaves in the slots. A locked address changes nothing. Otherwise exactly one slot
   * changes: on acceptance it is freed; on refusal it holds the address with one failure more, locked for
   * thirty seconds from now if that is the fifth.
   */
  lemma SlotsAfterAttempt(s: seq<LoginAttempt>, a: Attempt) returns (i: nat)
    requires Valid(s)
    ensures i < |s|
    ensures if exists j :: 0 <= j < |s| && s[j].ip == a.ip then s[i].ip == a.ip
            else if exists j :: 0 <= j < |s| && s[j].ip == [] then s[i].ip == [] && forall j :: 0 <= j < i ==> s[j].ip != []
            else i == Candidate(s, a.now, |s|)
    ensures var (s', accepted) := LoginStep(s, a);
      && (forall j :: 0 <= j < |s| && j != i ==> s'[j] == s[j])
      && (s[i].ip == a.ip && s[i].lockedUntil > a.now ==> !accepted && s'[i] == s[i])
      && (s[i].ip != a.ip || s[i].lockedUntil <= a.now ==>
            && accepted == a.credentialsOk
            && (accepted ==> s'[i] == LoginAttempt([], 0, 0))
            && (!accepted ==> var n := Failures(s, a.ip, a.now) + 1;
                  s'[i] == LoginAttempt(a.ip, n, if n == 5 then a.now + 30000 else 0)))
  {
    i := Target(s, a.ip, a.now);
    assert ValidSlot(s[i]);
  }

  lemma StepKeepsValid(s: seq<LoginAttempt>, a: Attempt)
    requires Valid(s)
    ensures Valid(LoginStep(s, a).0)
  {
    var i := Target(s, a.ip, a.now);
    var s' := LoginStep(s, a).0;
    assert ValidSlot(s[i]);
    if s[i].ip != a.ip {
      assert Find(s, a.ip) == |s|;
    }
    forall j, k | 0 <= j < k < |s'| && s'[j].ip != []
      ensures s'[j].ip != s'[k].ip
    {
    }
  }

  lemma FindResident(s: seq<LoginAttempt>, i: nat)
    requires Valid(s) && i < |s| && s[i].ip != []
    ensures Find(s, s[i].ip) == i && s[i].ip in Residents(s)
    ensures Lookup(Accounts(s), s[i].ip) == AccountOf(s[i])
  {
  }

  lemma LookupAbsent(s: seq<LoginAttempt>, ip: CString)
    ensures Find(s, ip) == |s| ==> ip !in Accounts(s) && Lookup(Accounts(s), ip) == CLEAN
  {
  }

  /** The table without the address an attempt evicts. */
  function Forget(t: Table, victim: Option<CString>): Table {
    if victim.Some? then t - {victim.value} else t
  }

  lemma VictimIsAnother(s: seq<LoginAttempt>, a: Attempt)
    requires Valid(s)
    ensures Evicted(s, a) != Some(a.ip)
  {
  }

  /** Exact simulation: a step is the table's step, preceded by forgetting at most the evicted address. */
  lemma StepRefinesTable(s: seq<LoginAttempt>, a: Attempt)
    requires Valid(s)
    ensures var (t, accepted) := TableStep(Forget(Accounts(s), Evicted(s, a)), a);
      Accounts(LoginStep(s, a).0) == t && LoginStep(s, a).1 == accepted
  {
    hide LoginStep, Accounts, Evicted, AccountStep;
    var s' := LoginStep(s, a).0;
    var before := Forget(Accounts(s), Evicted(s, a));
    var t := TableStep(before, a).0;
    AnswerIsTheAccounts(s, a);
    VictimIsAnother(s, a);
    assert Lookup(before, a.ip) == Lookup(Accounts(s), a.ip);
    forall ip: CString
      ensures ip in Accounts(s') <==> ip in t
      ensures ip in t ==> Accounts(s')[ip] == t[ip]
    {
      AccountAfterStep(s, a, ip);
    }
  }

  /** The answer depends on the account of the address alone, and leaves it clean exactly on success. */
  lemma AnswerIsTheAccounts(s: seq<LoginAttempt>, a: Attempt)
    requires Valid(s)
    ensures var (account, accepted) := AccountStep(Lookup(Accounts(s), a.ip), a.now, a.credentialsOk);
      LoginStep(s, a).1 == accepted && (account == CLEAN <==> accepted)
  {
    var i := Target(s, a.ip, a.now);
    LookupAbsent(s, a.ip);
    if s[i].ip == a.ip { FindResident(s, i); }
  }

  predicate EntryIs(t: Table, ip: CString, account: Option<Account>) {
    if ip in t then account == Some(t[ip]) else account == None
  }

  /** What a step does to the entry of the attempting address ... */
  lemma OwnEntryAfterStep(s: seq<LoginAttempt>, a: Attempt)
    requires Valid(s)
    ensures var (account, accepted) := AccountStep(Lookup(Accounts(s), a.ip), a.now, a.credentialsOk);
      EntryIs(Accounts(LoginStep(s, a).0), a.ip, if accepted then None else Some(account))
  {
    var i := Target(s, a.ip, a.now);
    var s' := LoginStep(s, a).0;
    StepKeepsValid(s, a);
    LookupAbsent(s, a.ip);
    if s[i].ip == a.ip { FindResident(s, i); } else { assert Find(s, a.ip) == |s|; }
    if s'[i].ip != [] { FindResident(s', i); }
  }

  /** ... and to every other: it stays, unless it is the victim's. */
  lemma OtherEntryAfterStep(s: seq<LoginAttempt>, a: Attempt, ip: CString)
    requires Valid(s) && ip != a.ip
    ensures EntryIs(Accounts(LoginStep(s, a).0), ip,
                    if Evicted(s, a) != Some(ip) && ip in Accounts(s) then Some(Accounts(s)[ip]) else None)
  {
    var i := Target(s, a.ip, a.now);
    var s' := LoginStep(s, a).0;
    StepKeepsValid(s, a);
    if s[i].ip != [] { FindResident(s, i); }
    if ip in Residents(s) {
      var k := Find(s, ip);
      FindResident(s, k);
      if k != i {
        assert s'[k] == s[k];
        FindResident(s', k);
      }
    }
    if ip in Residents(s') {
      FindResident(s', Find(s', ip));
    }
  }

  lemma AccountAfterStep(s: seq<LoginAttempt>, a: Attempt, ip: CString)
    requires Valid(s)
    ensures var (account, accepted) := AccountStep(Lookup(Accounts(s), a.ip), a.now, a.credentialsOk);
      EntryIs(Accounts(LoginStep(s, a).0), ip,
              if ip == a.ip then if accepted then None else Some(account)
              else if Evicted(s, a) != Some(ip) && ip in Accounts(s) then Some(Accounts(s)[ip])
              else None)
  {
    if ip == a.ip { OwnEntryAfterStep(s, a); } else { OtherEntryAfterStep(s, a, ip); }
  }
}
