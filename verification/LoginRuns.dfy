/** What the login tracker guarantees over whole runs of attempts. */
module LoginRuns {
  import opened Integers
  import opened Options
  import opened Sets
  import opened AuthUtils
  import opened LoginTracker

  // ----- refinement of the unbounded table

  ghost function Addresses(attempts: seq<Attempt>): set<CString> {
    set a | a in attempts :: a.ip
  }

  ghost predicate Full(s: seq<LoginAttempt>) {
    forall i :: 0 <= i < |s| ==> s[i].ip != []
  }

  lemma DistinctResidents(s: seq<LoginAttempt>)
    requires Full(s)
    requires forall i, j :: 0 <= i < j < |s| ==> s[i].ip != s[j].ip
    ensures |Residents(s)| == |s|
  {
    var ips := seq(|s|, i requires 0 <= i < |s| => s[i].ip);
    DistinctSize(ips);
    assert Residents(s) == set x | x in ips by {
      forall x | x in ips
        ensures x in Residents(s)
      {
        var i :| 0 <= i < |ips| && ips[i] == x;
        assert s[i].ip == x;
      }
      forall x | x in Residents(s)
        ensures x in ips
      {
        var i :| 0 <= i < |s| && s[i].ip == x;
        assert ips[i] == x;
      }
    }
  }

  lemma EvictionMeansFull(s: seq<LoginAttempt>, a: Attempt)
    requires Valid(s) && Evicted(s, a).Some?
    ensures Full(s) && a.ip !in Residents(s) && |Residents(s) + {a.ip}| == LOGIN_TRACKER_SIZE + 1
  {
    assert Find(s, a.ip) == |s| && Find(s, []) == |s|;
    DistinctResidents(s);
    assert a.ip !in Residents(s);
  }

  lemma NoEvictionBelowCapacity(s: seq<LoginAttempt>, a: Attempt)
    requires Valid(s) && |Residents(s) + {a.ip}| <= LOGIN_TRACKER_SIZE
    ensures Evicted(s, a) == None
    ensures Residents(LoginStep(s, a).0) <= Residents(s) + {a.ip}
  {
    if Evicted(s, a).Some? {
      EvictionMeansFull(s, a);
    }
    forall ip | ip in Residents(LoginStep(s, a).0)
      ensures ip in Residents(s) + {a.ip}
    {
      assert ip in Accounts(LoginStep(s, a).0);
      AccountAfterStep(s, a, ip);
    }
  }

  /**
   * The main refinement: while at most eight addresses are involved, every attempt of every run gets
   * the answer of the table that never forgets, and the slots stand for exactly that table.
   */
  lemma {:induction false} EightSlotsSuffice(s: seq<LoginAttempt>, attempts: seq<Attempt>)
    requires Valid(s) && |Residents(s) + Addresses(attempts)| <= LOGIN_TRACKER_SIZE
    ensures RunTracker(s, attempts).1 == RunTable(Accounts(s), attempts).1
    ensures Accounts(RunTracker(s, attempts).0) == RunTable(Accounts(s), attempts).0
    decreases |attempts|
  {
    if attempts == [] {
    } else {
      var rest := WithinCapacity(s, attempts);
      StepRefinesTable(s, attempts[0]);
      EightSlotsSuffice(LoginStep(s, attempts[0]).0, rest);
    }
  }

  /** With at most eight addresses involved, every address keeps its slot: all results about such addresses apply. */
  lemma {:induction false} NobodyEvicted(s: seq<LoginAttempt>, attempts: seq<Attempt>, ip: CString)
    requires Valid(s) && |Residents(s) + Addresses(attempts)| <= LOGIN_TRACKER_SIZE
    ensures NeverEvicted(s, attempts, ip)
    decreases |attempts|
  {
    if attempts == [] {
    } else {
      var rest := WithinCapacity(s, attempts);
      NobodyEvicted(LoginStep(s, attempts[0]).0, rest, ip);
    }
  }

  /** The first step of a run that involves at most eight addresses evicts nobody, nor does the rest. */
  lemma WithinCapacity(s: seq<LoginAttempt>, attempts: seq<Attempt>) returns (rest: seq<Attempt>)
    requires Valid(s) && attempts != [] && |Residents(s) + Addresses(attempts)| <= LOGIN_TRACKER_SIZE
    ensures rest == attempts[1..]
    ensures var s' := LoginStep(s, attempts[0]).0;
      Valid(s') && Evicted(s, attempts[0]) == None && |Residents(s') + Addresses(rest)| <= LOGIN_TRACKER_SIZE
  {
    var a := attempts[0];
    var s' := LoginStep(s, a).0;
    rest := attempts[1..];
    assert a in attempts;
    SubsetSize(Residents(s) + {a.ip}, Residents(s) + Addresses(attempts));
    NoEvictionBelowCapacity(s, a);
    StepKeepsValid(s, a);
    assert Addresses(rest) <= Addresses(attempts);
    SubsetSize(Residents(s') + Addresses(rest), Residents(s) + Addresses(attempts));
  }

  /** The exact point of departure: a step leaves the unbounded table iff a ninth address arrives. */
  lemma DepartsExactlyOnNinth(s: seq<LoginAttempt>, a: Attempt)
    requires Valid(s)
    ensures Accounts(LoginStep(s, a).0) == TableStep(Accounts(s), a).0 <==> !(Full(s) && a.ip !in Residents(s))
  {
    StepRefinesTable(s, a);
    LookupAbsent(s, a.ip);
    if Full(s) && a.ip !in Residents(s) {
      var victim := s[Target(s, a.ip, a.now)].ip;
      FindResident(s, Target(s, a.ip, a.now));
      AccountAfterStep(s, a, victim);
      assert victim in TableStep(Accounts(s), a).0;
    } else if Evicted(s, a).Some? {
      EvictionMeansFull(s, a);
    }
  }

  // ----- any number of addresses: one address followed through a run

  /** The address keeps its slot, if it has one, at every step of the run. */
  ghost predicate NeverEvicted(s: seq<LoginAttempt>, attempts: seq<Attempt>, ip: CString)
    requires |s| == LOGIN_TRACKER_SIZE
    decreases |attempts|
  {
    attempts == [] ||
    (Evicted(s, attempts[0]) != Some(ip) && NeverEvicted(LoginStep(s, attempts[0]).0, attempts[1..], ip))
  }

  /** The account of `ip` after its own attempts; those of other addresses do not matter. */
  function RunAccount(account: Account, attempts: seq<Attempt>, ip: CString): Account
    decreases |attempts|
  {
    if attempts == [] then account
    else
      RunAccount(if attempts[0].ip == ip then AccountStep(account, attempts[0].now, attempts[0].credentialsOk).0
                 else account, attempts[1..], ip)
  }

  function AnswersTo(attempts: seq<Attempt>, answers: seq<bool>, ip: CString): seq<bool>
    requires |answers| == |attempts|
  {
    if attempts == [] then []
    else (if attempts[0].ip == ip then [answers[0]] else []) + AnswersTo(attempts[1..], answers[1..], ip)
  }

  function AccountAnswers(account: Account, attempts: seq<Attempt>, ip: CString): seq<bool>
    decreases |attempts|
  {
    if attempts == [] then []
    else if attempts[0].ip == ip then
      var (account', accepted) := AccountStep(account, attempts[0].now, attempts[0].credentialsOk);
      [accepted] + AccountAnswers(account', attempts[1..], ip)
    else AccountAnswers(account, attempts[1..], ip)
  }

  lemma AccountFollows(s: seq<LoginAttempt>, a: Attempt, ip: CString)
    requires Valid(s) && Evicted(s, a) != Some(ip)
    ensures Lookup(Accounts(LoginStep(s, a).0), ip)
         == if a.ip == ip then AccountStep(Lookup(Accounts(s), ip), a.now, a.credentialsOk).0
            else Lookup(Accounts(s), ip)
  {
    AnswerIsTheAccounts(s, a);
    AccountAfterStep(s, a, ip);
  }

  /** With any number of other clients, an address that is not evicted is treated as if it were alone. */
  lemma {:induction false} ResidentAgrees(s: seq<LoginAttempt>, attempts: seq<Attempt>, ip: CString)
    requires Valid(s) && NeverEvicted(s, attempts, ip)
    ensures var account := Lookup(Accounts(s), ip);
      && Lookup(Accounts(RunTracker(s, attempts).0), ip) == RunAccount(account, attempts, ip)
      && AnswersTo(attempts, RunTracker(s, attempts).1, ip) == AccountAnswers(account, attempts, ip)
    decreases |attempts|
  {
    if attempts == [] {
    } else {
      var a := attempts[0];
      StepKeepsValid(s, a);
      AccountFollows(s, a, ip);
      AnswerIsTheAccounts(s, a);
      var s' := LoginStep(s, a).0;
      ResidentAgrees(s', attempts[1..], ip);
      var answers := RunTracker(s, attempts).1;
      assert answers[1..] == RunTracker(s', attempts[1..]).1;
    }
  }

  // ----- which slot is given up

  /** The last expired lockout among the first `n` slots, or slot 0. */
  function ScanStart(s: seq<LoginAttempt>, now: Millis, n: nat): (e: nat)
    requires 1 <= n <= |s|
    ensures e < n
    ensures e == 0 || Expired(s[e], now)
    ensures forall j :: e < j < n ==> !Expired(s[j], now)
  {
    if n == 1 || Expired(s[n - 1], now) then n - 1 else ScanStart(s, now, n - 1)
  }

  /** The candidate is the first slot of least count from the last expired lockout on. */
  lemma {:induction false} CandidateMeaning(s: seq<LoginAttempt>, now: Millis, n: nat)
    requires 1 <= n <= |s|
    ensures var c := Candidate(s, now, n);
      && ScanStart(s, now, n) <= c
      && (forall j :: ScanStart(s, now, n) <= j < n ==> s[c].count <= s[j].count)
      && (forall j :: ScanStart(s, now, n) <= j < c ==> s[c].count < s[j].count)
  {
    if n == 1 {
    } else {
      CandidateMeaning(s, now, n - 1);
    }
  }

  /** Eviction safety: a lockout still in force is given up only when every slot holds one. */
  lemma UnexpiredLockoutEvictedLast(s: seq<LoginAttempt>, a: Attempt)
    requires Valid(s) && Evicted(s, a).Some?
    requires Locked(s[Target(s, a.ip, a.now)], a.now)
    ensures forall i :: 0 <= i < |s| ==> Locked(s[i], a.now)
  {
    var c := Target(s, a.ip, a.now);
    var start := ScanStart(s, a.now, |s|);
    assert c == Candidate(s, a.now, |s|);
    CandidateMeaning(s, a.now, |s|);
    assert ValidSlot(s[c]) && ValidSlot(s[start]);
    assert start == c;
    forall i | 0 <= i < |s|
      ensures Locked(s[i], a.now)
    {
      assert ValidSlot(s[i]);
    }
  }

  /**
   * The header promises that an expired lockout is given up first. The scan keeps that promise exactly
   * when every slot behind the last expired lockout is itself locked.
   */
  lemma ExpiredLockoutPreferredExactly(s: seq<LoginAttempt>, a: Attempt, e: nat)
    requires Valid(s) && Evicted(s, a).Some?
    requires e < |s| && Expired(s[e], a.now) && forall j :: e < j < |s| ==> !Expired(s[j], a.now)
    ensures Expired(s[Target(s, a.ip, a.now)], a.now)
       <==> forall j :: e < j < |s| ==> Locked(s[j], a.now)
  {
    var c := Target(s, a.ip, a.now);
    assert c == Candidate(s, a.now, |s|);
    CandidateMeaning(s, a.now, |s|);
    assert ScanStart(s, a.now, |s|) == e;
    assert ValidSlot(s[c]) && ValidSlot(s[e]);
    forall j | e < j < |s| ensures ValidSlot(s[j]) {}
  }

  // A run from an empty tracker that breaks the promise: five failures of one address at time 0, one
  // failure each of seven others, and a ninth address at the moment the lockout expires.

  const EMPTY: seq<LoginAttempt> := seq(8, _ => FREE)

  function AddressOfLength(n: nat): (s: CString)
    ensures |s| == n
  {
    seq(n, _ => 49)
  }

  function Failure(client: nat, now: Millis): Attempt
    requires 1 <= client <= 15
  {
    Attempt(AddressOfLength(client), now, false)
  }

  function CrowdingRun(): (r: seq<Attempt>)
    ensures |r| == 12
    ensures forall i :: 0 <= i < 12 ==> r[i] == Failure(if i < 5 then 1 else i - 3, 0)
  {
    seq(12, i requires 0 <= i < 12 => Failure(if i < 5 then 1 else i - 3, 0))
  }

  /** Slot `k` after the first `i` attempts of that run. */
  function CrowdSlot(i: nat, k: nat): LoginAttempt {
    if k == 0 && 0 < i then LoginAttempt(AddressOfLength(1), if i < 5 then i else 5, if i < 5 then 0 else 30000)
    else if 0 < k <= i - 5 then LoginAttempt(AddressOfLength(k + 1), 1, 0)
    else FREE
  }

  function Crowd(i: nat): (s: seq<LoginAttempt>)
    ensures |s| == 8 && forall k :: 0 <= k < 8 ==> s[k] == CrowdSlot(i, k)
  {
    seq(8, k requires 0 <= k < 8 => CrowdSlot(i, k))
  }

  /** Attempt `i` takes this slot. */
  lemma CrowdTarget(i: nat)
    requires i < 12
    ensures Target(Crowd(i), CrowdingRun()[i].ip, 0) == if i < 5 then 0 else i - 4
  {
    var s, ip := Crowd(i), CrowdingRun()[i].ip;
    var slot := if i < 5 then 0 else i - 4;
    if 0 < i < 5 {
      assert CrowdSlot(i, 0) == s[0];
      assert Find(s, ip) == 0;
    } else {
      forall k | 0 <= k < 8
        ensures s[k].ip != ip && (k < slot ==> s[k].ip != [])
      {
        assert s[k] == CrowdSlot(i, k);
      }
      assert s[slot] == CrowdSlot(i, slot) == FREE;
      assert Find(s, ip) == 8 && Find(s, []) == slot;
    }
  }

  lemma CrowdStep(i: nat)
    requires i < 12
    ensures LoginStep(Crowd(i), CrowdingRun()[i]).0 == Crowd(i + 1)
  {
    hide Target;
    CrowdTarget(i);
    var s, a, slot := Crowd(i), CrowdingRun()[i], if i < 5 then 0 else i - 4;
    assert s[slot] == CrowdSlot(i, slot);
    var s' := LoginStep(s, a).0;
    assert s'[slot] == CrowdSlot(i + 1, slot);
    forall k | 0 <= k < 8
      ensures s'[k] == Crowd(i + 1)[k]
    {
      assert k != slot ==> s'[k] == s[k] == CrowdSlot(i, k) == CrowdSlot(i + 1, k);
    }
  }

  lemma {:induction false} CrowdRuns(i: nat)
    requires i <= 12
    ensures RunTracker(Crowd(i), CrowdingRun()[i..]).0 == Crowd(12)
    decreases 12 - i
  {
    if i == 12 {
    } else {
      CrowdStep(i);
      CrowdRuns(i + 1);
      assert CrowdingRun()[i..][1..] == CrowdingRun()[i + 1..];
    }
  }

  /** That run gives up a client with one failure although the lockout in slot 0 has expired. */
  lemma ExpiredLockoutNotPreferred()
    ensures var s := RunTracker(EMPTY, CrowdingRun()).0;
      var ninth := Failure(9, 30000);
      && Valid(s) && Expired(s[0], ninth.now)
      && Target(s, ninth.ip, ninth.now) == 1 && !Expired(s[1], ninth.now)
      && Evicted(s, ninth) == Some(AddressOfLength(2))
  {
    hide Target, RunTracker, Valid, Crowd;
    EmptyTracker();
    assert CrowdingRun()[0..] == CrowdingRun();
    CrowdRuns(0);
    RunKeepsValid(EMPTY, CrowdingRun());
    CrowdIsFull();
  }

  lemma EmptyTracker()
    ensures Valid(EMPTY) && Crowd(0) == EMPTY
  {
  }

  lemma CrowdIsFull()
    ensures Expired(Crowd(12)[0], 30000) && Crowd(12)[1] == LoginAttempt(AddressOfLength(2), 1, 0)
    ensures Target(Crowd(12), AddressOfLength(9), 30000) == 1
  {
    var s := Crowd(12);
    forall k | 0 <= k < 8
      ensures |s[k].ip| == k + 1 && (k > 0 ==> s[k].count == 1 && !Expired(s[k], 30000))
    {
      assert s[k] == CrowdSlot(12, k);
    }
    assert s[0].count == 5;
    assert Find(s, AddressOfLength(9)) == 8 && Find(s, []) == 8;
    CandidateMeaning(s, 30000, |s|);
  }

  // ----- lockout

  /** A locked address is refused without a trace, whatever credentials it presents. */
  lemma LockedAttemptChangesNothing(s: seq<LoginAttempt>, a: Attempt)
    requires Valid(s) && Lookup(Accounts(s), a.ip).lockedUntil > a.now
    ensures LoginStep(s, a) == (s, false)
  {
    LookupAbsent(s, a.ip);
    var i := Find(s, a.ip);
    FindResident(s, i);
    assert s[i := s[i]] == s;
  }

  ghost predicate OnlyFailures(attempts: seq<Attempt>, ip: CString) {
    forall a :: a in attempts && a.ip == ip ==> !a.credentialsOk
  }

  function AttemptsOf(attempts: seq<Attempt>, ip: CString): seq<Attempt> {
    if attempts == [] then []
    else (if attempts[0].ip == ip then [attempts[0]] else []) + AttemptsOf(attempts[1..], ip)
  }

  /** Failures add up; the fifth in a row locks for thirty seconds from its own time. */
  lemma {:induction false} FailuresAddUp(account: Account, attempts: seq<Attempt>, ip: CString)
    requires account.lockedUntil == 0 && account.count + |AttemptsOf(attempts, ip)| <= LOGIN_MAX_ATTEMPTS
    requires account.count < LOGIN_MAX_ATTEMPTS && OnlyFailures(attempts, ip)
    ensures var mine := AttemptsOf(attempts, ip);
      RunAccount(account, attempts, ip)
        == Account(account.count + |mine|,
                   if account.count + |mine| < LOGIN_MAX_ATTEMPTS then 0 else mine[|mine| - 1].now + LOGIN_LOCKOUT_MS)
    decreases |attempts|
  {
    if attempts == [] {
    } else {
      assert attempts[0] in attempts;
      assert OnlyFailures(attempts[1..], ip);
      var next := RunAccount(account, [attempts[0]], ip);
      if attempts[0].ip == ip && account.count + 1 == LOGIN_MAX_ATTEMPTS {
        assert AttemptsOf(attempts[1..], ip) == [];
        NoAttemptsNoChange(AccountStep(account, attempts[0].now, false).0, attempts[1..], ip);
      } else if attempts[0].ip == ip {
        FailuresAddUp(AccountStep(account, attempts[0].now, false).0, attempts[1..], ip);
      } else {
        FailuresAddUp(account, attempts[1..], ip);
      }
    }
  }

  lemma {:induction false} NoAttemptsNoChange(account: Account, attempts: seq<Attempt>, ip: CString)
    requires AttemptsOf(attempts, ip) == []
    ensures RunAccount(account, attempts, ip) == account
    decreases |attempts|
  {
    if attempts == [] {
    } else {
      NoAttemptsNoChange(account, attempts[1..], ip);
    }
  }

  ghost predicate AllRefused(answers: seq<bool>) {
    forall b :: b in answers ==> !b
  }

  lemma {:induction false} LockedAccountRefuses(account: Account, attempts: seq<Attempt>, ip: CString)
    requires forall a :: a in attempts && a.ip == ip ==> a.now < account.lockedUntil
    ensures RunAccount(account, attempts, ip) == account && AllRefused(AccountAnswers(account, attempts, ip))
    decreases |attempts|
  {
    if attempts == [] {
    } else {
      assert attempts[0] in attempts;
      LockedAccountRefuses(account, attempts[1..], ip);
    }
  }

  /**
   * Lockout over runs: from a clean account, five failures in `failing` (interleaved with any traffic)
   * lock the address; every attempt it makes in `during` before the expiry is refused and leaves its
   * account as it is; and the first failure at or after the expiry counts as the first again.
   */
  lemma FiveFailuresLockOut(s: seq<LoginAttempt>, failing: seq<Attempt>, during: seq<Attempt>, ip: Address, late: Attempt)
    requires Valid(s) && Lookup(Accounts(s), ip) == CLEAN
    requires |AttemptsOf(failing, ip)| == LOGIN_MAX_ATTEMPTS && OnlyFailures(failing, ip)
    requires NeverEvicted(s, failing, ip)
    requires NeverEvicted(RunTracker(s, failing).0, during, ip)
    requires var expiry := AttemptsOf(failing, ip)[4].now + LOGIN_LOCKOUT_MS;
      && (forall a :: a in during && a.ip == ip ==> a.now < expiry)
      && late.ip == ip && late.now >= expiry && !late.credentialsOk
    ensures var s1 := RunTracker(s, failing).0;
      var s2 := RunTracker(s1, during).0;
      && Lookup(Accounts(s1), ip) == Account(5, AttemptsOf(failing, ip)[4].now + LOGIN_LOCKOUT_MS)
      && AllRefused(AnswersTo(during, RunTracker(s1, during).1, ip))
      && Lookup(Accounts(s2), ip) == Lookup(Accounts(s1), ip)
      && Lookup(Accounts(LoginStep(s2, late).0), ip) == Account(1, 0)
  {
    var s1 := RunTracker(s, failing).0;
    var s2 := RunTracker(s1, during).0;
    RunKeepsValid(s, failing);
    RunKeepsValid(s1, during);
    ResidentAgrees(s, failing, ip);
    FailuresAddUp(CLEAN, failing, ip);
    ResidentAgrees(s1, during, ip);
    LockedAccountRefuses(Lookup(Accounts(s1), ip), during, ip);
    assert ip in Accounts(s2);
    assert Evicted(s2, late) == None by { LookupAbsent(s2, ip); }
    AccountFollows(s2, late, ip);
  }

  lemma {:induction false} RunKeepsValid(s: seq<LoginAttempt>, attempts: seq<Attempt>)
    requires Valid(s)
    ensures Valid(RunTracker(s, attempts).0)
    decreases |attempts|
  {
    if attempts == [] {
    } else {
      StepKeepsValid(s, attempts[0]);
      RunKeepsValid(LoginStep(s, attempts[0]).0, attempts[1..]);
    }
  }

  // ----- how fast an address can guess

  /** Attempts of `ip` that get as far as the comparison of credentials. */
  function Guesses(s: seq<LoginAttempt>, attempts: seq<Attempt>, ip: CString): nat
    requires |s| == LOGIN_TRACKER_SIZE
    decreases |attempts|
  {
    if attempts == [] then 0
    else
      (if attempts[0].ip == ip && Lookup(Accounts(s), ip).lockedUntil <= attempts[0].now then 1 else 0)
      + Guesses(LoginStep(s, attempts[0]).0, attempts[1..], ip)
  }

  ghost predicate Chronological(attempts: seq<Attempt>, start: Millis, end: Millis) {
    && (forall a :: a in attempts ==> start <= a.now <= end)
    && (forall i, j :: 0 <= i < j < |attempts| ==> attempts[i].now <= attempts[j].now)
  }

  ghost predicate ValidAccount(a: Account, now: Millis) {
    && a.count <= LOGIN_MAX_ATTEMPTS
    && (if a.count == LOGIN_MAX_ATTEMPTS then 0 < a.lockedUntil <= now + LOGIN_LOCKOUT_MS else a.lockedUntil == 0)
  }

  /** Guesses made since `t0` that the time passed since then has paid for. */
  ghost predicate Paid(guesses: nat, a: Account, now: Millis, t0: Millis) {
    if a.count == LOGIN_MAX_ATTEMPTS
    then guesses * LOGIN_LOCKOUT_MS <= 5 * ((if a.lockedUntil > now then a.lockedUntil else now) - t0)
    else (guesses - a.count) * LOGIN_LOCKOUT_MS <= 5 * (now - t0)
  }

  lemma PaidStep(account: Account, before: nat, earlier: Millis, now: Millis, t0: Millis)
    requires ValidAccount(account, earlier) && Paid(before, account, earlier, t0) && t0 <= earlier <= now
    ensures var account' := AccountStep(account, now, false).0;
      && ValidAccount(account', now)
      && Paid(before + (if account.lockedUntil <= now then 1 else 0), account', now, t0)
  {
  }

  lemma ChronologicalTail(attempts: seq<Attempt>, start: Millis, end: Millis)
    requires Chronological(attempts, start, end) && attempts != []
    ensures start <= attempts[0].now <= end && Chronological(attempts[1..], attempts[0].now, end)
  {
    assert attempts[0] in attempts;
    forall b | b in attempts[1..]
      ensures attempts[0].now <= b.now <= end
    {
      var j :| 1 <= j < |attempts| && attempts[j] == b;
    }
  }

  lemma {:induction false} GuessesArePaid(s: seq<LoginAttempt>, attempts: seq<Attempt>, ip: CString,
                                          before: nat, t0: Millis, now: Millis, end: Millis)
    requires Valid(s) && ValidAccount(Lookup(Accounts(s), ip), now)
    requires Paid(before, Lookup(Accounts(s), ip), now, t0) && t0 <= now <= end
    requires NeverEvicted(s, attempts, ip) && OnlyFailures(attempts, ip) && Chronological(attempts, now, end)
    ensures (before + Guesses(s, attempts, ip)) * LOGIN_LOCKOUT_MS <= 5 * (end - t0 + LOGIN_LOCKOUT_MS)
    decreases |attempts|
  {
    if attempts == [] {
    } else {
      var a := attempts[0];
      var account := Lookup(Accounts(s), ip);
      assert a in attempts;
      ChronologicalTail(attempts, now, end);
      StepKeepsValid(s, a);
      AccountFollows(s, a, ip);
      if a.ip == ip {
        PaidStep(account, before, now, a.now, t0);
      }
      var guessed := if a.ip == ip && account.lockedUntil <= a.now then 1 else 0;
      GuessesArePaid(LoginStep(s, a).0, attempts[1..], ip, before + guessed, t0, a.now, end);
    }
  }

  /**
   * The brute-force bound: whatever the other clients do, an address that is not evicted gets at most
   * five wrong guesses per thirty seconds of a run, plus five.
   */
  lemma GuessRate(s: seq<LoginAttempt>, attempts: seq<Attempt>, ip: CString, start: Millis, end: Millis)
    requires Valid(s) && ValidAccount(Lookup(Accounts(s), ip), start)
    requires NeverEvicted(s, attempts, ip) && OnlyFailures(attempts, ip)
    requires start <= end && Chronological(attempts, start, end)
    ensures Guesses(s, attempts, ip) * LOGIN_LOCKOUT_MS <= 5 * (end - start + LOGIN_LOCKOUT_MS)
  {
    GuessesArePaid(s, attempts, ip, 0, start, start, end);
  }
}
