/** Lock actions from the REST request to the device: the one-slot queue, the ACL and the retries. */
module LockActions {
  import opened Options

  datatype LockAction =
    | Unlock | Lock | Unlatch | LockNgo | LockNgoUnlatch | FullLock | FobAction1 | FobAction2 | FobAction3

  datatype LockActionResult = Success | UnknownAction | AccessDenied | Failed | Busy

  datatype CmdResult = CmdSuccess | CmdError | CmdOther(code: int)

  const ACL_SIZE: nat := 17

  type Acl = s: seq<int> | |s| == ACL_SIZE witness seq(17, _ => 0)

  function LockActionToEnum(str: string): Option<LockAction> {
    if str == "unlock" || str == "Unlock" then Some(Unlock)
    else if str == "lock" || str == "Lock" then Some(Lock)
    else if str == "unlatch" || str == "Unlatch" then Some(Unlatch)
    else if str == "lockNgo" || str == "LockNgo" then Some(LockNgo)
    else if str == "lockNgoUnlatch" || str == "LockNgoUnlatch" then Some(LockNgoUnlatch)
    else if str == "fullLock" || str == "FullLock" then Some(FullLock)
    else if str == "fobAction2" || str == "FobAction2" then Some(FobAction2)
    else if str == "fobAction1" || str == "FobAction1" then Some(FobAction1)
    else if str == "fobAction3" || str == "FobAction3" then Some(FobAction3)
    else None
  }

  /** The entry of the access list that governs an action. */
  function AclIndex(a: LockAction): (i: nat)
    ensures i < ACL_SIZE
  {
    match a
    case Lock => 0
    case Unlock => 1
    case Unlatch => 2
    case LockNgo => 3
    case LockNgoUnlatch => 4
    case FullLock => 5
    case FobAction1 => 6
    case FobAction2 => 7
    case FobAction3 => 8
  }

  predicate Permitted(a: LockAction, acl: Acl) {
    acl[AclIndex(a)] == 1
  }

  // ----- retries

  /** What a finished call of `retryComm` has asked of the device, for `n` retries. */
  ghost predicate Complete(results: seq<CmdResult>, n: int) {
    && 1 <= |results| <= n + 1
    && (forall i :: 0 <= i < |results| - 1 ==> results[i] != CmdSuccess)
    && (results[|results| - 1] == CmdSuccess || |results| == n + 1)
  }

  /** ... and while it is still at work. */
  ghost predicate Unfinished(results: seq<CmdResult>, n: int) {
    |results| <= n && forall i :: 0 <= i < |results| ==> results[i] != CmdSuccess
  }

  /** The device, which answers as it likes and is remembered to have been asked. */
  class Device {
    const answers: nat -> CmdResult
    var asked: nat
    ghost var calls: seq<CmdResult>

    constructor (answers: nat -> CmdResult)
      ensures this.answers == answers && calls == []
    {
      this.answers, asked, calls := answers, 0, [];
    }

    method LockAction() returns (r: CmdResult)
      modifies this
      ensures r == answers(old(asked)) && asked == old(asked) + 1 && calls == old(calls) + [r]
    {
      r := answers(asked);
      asked := asked + 1;
      calls := calls + [r];
    }
  }

  class NukiRetryHandler {
    const nrOfRetries: int

    constructor (nrOfRetries: int)
      ensures this.nrOfRetries == nrOfRetries
    {
      this.nrOfRetries := nrOfRetries;
    }

    /** `retryComm`: the result is a success iff the device would succeed within the allowed calls. */
    method RetryComm(device: Device) returns (cmdResult: CmdResult)
      modifies device
      ensures |old(device.calls)| <= |device.calls| && device.calls[..|old(device.calls)|] == old(device.calls)
      ensures nrOfRetries < 0 ==> cmdResult == CmdError && device.calls == old(device.calls)
      ensures nrOfRetries >= 0 ==> Complete(device.calls[|old(device.calls)|..], nrOfRetries)
      ensures nrOfRetries >= 0 ==> cmdResult == device.calls[|device.calls| - 1]
      ensures cmdResult == CmdSuccess
         <==> exists k: nat :: old(device.asked) <= k <= old(device.asked) + nrOfRetries && device.answers(k) == CmdSuccess
    {
      cmdResult := CmdError;
      var retryCount := 0;
      ghost var made: seq<CmdResult> := [];
      while retryCount < nrOfRetries + 1 && cmdResult != CmdSuccess
        invariant device.calls == old(device.calls) + made && device.asked == old(device.asked) + |made|
        invariant forall k: nat :: k < |made| ==> made[k] == device.answers(old(device.asked) + k)
        invariant made == [] ==> cmdResult == CmdError && retryCount == 0
        invariant made != [] ==> cmdResult == made[|made| - 1]
        invariant retryCount == if cmdResult == CmdSuccess then |made| - 1 else |made|
        invariant made != [] ==> Complete(made, nrOfRetries) || Unfinished(made, nrOfRetries)
        invariant made != [] && cmdResult == CmdSuccess ==> Complete(made, nrOfRetries)
        invariant 0 <= retryCount && (nrOfRetries >= 0 ==> |made| <= nrOfRetries + 1)
        decreases nrOfRetries + 1 - retryCount, if cmdResult == CmdSuccess then 0 else 1
      {
        cmdResult := device.LockAction();
        made := made + [cmdResult];
        if cmdResult != CmdSuccess {
          retryCount := retryCount + 1;
        }
      }
      assert device.calls[|old(device.calls)|..] == made;
      if cmdResult == CmdSuccess {
        assert device.answers(old(device.asked) + (|made| - 1)) == CmdSuccess;
      } else if nrOfRetries >= 0 {
        assert |made| == nrOfRetries + 1;
        forall k: nat | old(device.asked) <= k <= old(device.asked) + nrOfRetries
          ensures device.answers(k) != CmdSuccess
        {
          assert made[k - old(device.asked)] == device.answers(k);
        }
      }
    }
  }

  // ----- the queue

  class NukiWrapper {
    /** `_lockActionQueue`: one slot. */
    var lockActionQueue: Option<LockAction>

    constructor ()
      ensures lockActionQueue == None
    {
      lockActionQueue := None;
    }

    method OnLockActionReceived(value: Option<string>, acl: Acl) returns (result: LockActionResult)
      modifies this
      ensures (lockActionQueue, result) == Answer(old(lockActionQueue), value, acl)
    {
      var action: Option<LockAction> := None;
      if value.Some? {
        if |value.value| > 0 {
          action := LockActionToEnum(value.value);
          if action == None {
            return UnknownAction;
          }
        } else {
          return UnknownAction;
        }
      } else {
        return UnknownAction;
      }
      var a := action.value;
      if (a == Lock && acl[0] == 1) || (a == Unlock && acl[1] == 1) || (a == Unlatch && acl[2] == 1)
         || (a == LockNgo && acl[3] == 1) || (a == LockNgoUnlatch && acl[4] == 1) || (a == FullLock && acl[5] == 1)
         || (a == FobAction1 && acl[6] == 1) || (a == FobAction2 && acl[7] == 1) || (a == FobAction3 && acl[8] == 1) {
        if lockActionQueue.Some? {
          return Busy;
        }
        lockActionQueue := Some(a);
        return Success;
      }
      return AccessDenied;
    }

    /** The consumer in `update`: take the pending action, if any, and drive it through the retries. */
    method ConsumeLockAction(handler: NukiRetryHandler, device: Device)
      returns (taken: Option<LockAction>, cmdResult: CmdResult)
      requires handler.nrOfRetries >= 0
      modifies this, device
      ensures taken == old(lockActionQueue) && lockActionQueue == None
      ensures taken == None ==> device.calls == old(device.calls)
      ensures taken.Some? ==>
        && |old(device.calls)| < |device.calls| && device.calls[..|old(device.calls)|] == old(device.calls)
        && Complete(device.calls[|old(device.calls)|..], handler.nrOfRetries)
        && cmdResult == device.calls[|device.calls| - 1]
    {
      taken, cmdResult := lockActionQueue, CmdError;
      if taken.Some? {
        lockActionQueue := None;
        cmdResult := handler.RetryComm(device);
      }
    }
  }

  /** The answer to `/lock/action` and what it does to the slot. */
  function Answer(slot: Option<LockAction>, value: Option<string>, acl: Acl): (Option<LockAction>, LockActionResult) {
    if value == None || LockActionToEnum(value.value) == None then (slot, UnknownAction)
    else
      var a := LockActionToEnum(value.value).value;
      if !Permitted(a, acl) then (slot, AccessDenied)
      else if slot.Some? then (slot, Busy)
      else (Some(a), Success)
  }

  /** The part of `main.cpp` that owns the wrapper. */
  class LockTask {
    var nuki: NukiWrapper

    constructor ()
      ensures fresh(nuki) && nuki.lockActionQueue == None
    {
      nuki := new NukiWrapper();
    }

    /** `restartServices(false)`: the wrapper goes with its queue, and a new one starts empty. */
    method RestartServices()
      modifies this
      ensures fresh(nuki) && nuki.lockActionQueue == None
    {
      nuki := new NukiWrapper();
    }
  }

  // ----- interleavings of the REST task with the task that drives the lock

  datatype Acceptance = Acceptance(action: LockAction, acl: Acl)

  datatype Execution = Execution(action: LockAction, results: seq<CmdResult>)

  /** How an accepted action leaves the system. */
  datatype Fate = Executed(execution: Execution) | Dropped(dropped: LockAction)

  datatype State = State(slot: Option<LockAction>, running: Option<Execution>,
                         accepted: seq<Acceptance>, fates: seq<Fate>)

  datatype Step =
    | Request(value: Option<string>, acl: Acl)  // POST /lock/action
    | Receive                                   // xQueueReceive
    | Call(result: CmdResult)                   // one lockAction on the device
    | Restart                                   // a BLE fault makes nukiTask rebuild the wrapper

  const INITIAL := State(None, None, [], [])

  /**
   * One atomic step with `n` retries configured; a step out of turn changes nothing. The task that
   * restarts is the one that executes, so a restart finds nothing running.
   */
  function Perform(s: State, step: Step, n: nat): State {
    match step
    case Request(value, acl) =>
      var (slot, result) := Answer(s.slot, value, acl);
      if result == Success then s.(slot := slot, accepted := s.accepted + [Acceptance(slot.value, acl)]) else s
    case Receive =>
      if s.running == None && s.slot.Some? then s.(slot := None, running := Some(Execution(s.slot.value, []))) else s
    case Call(result) =>
      if s.running == None then s
      else
        var e := s.running.value.(results := s.running.value.results + [result]);
        if result == CmdSuccess || |e.results| == n + 1 then s.(running := None, fates := s.fates + [Executed(e)])
        else s.(running := Some(e))
    case Restart =>
      if s.running == None && s.slot.Some? then s.(slot := None, fates := s.fates + [Dropped(s.slot.value)]) else s
  }

  function Run(s: State, schedule: seq<Step>, n: nat): State
    decreases |schedule|
  {
    if schedule == [] then s else Run(Perform(s, schedule[0], n), schedule[1..], n)
  }

  function ActionsAccepted(accepted: seq<Acceptance>): seq<LockAction> {
    seq(|accepted|, i requires 0 <= i < |accepted| => accepted[i].action)
  }

  function ActionOf(f: Fate): LockAction {
    match f
    case Executed(e) => e.action
    case Dropped(a) => a
  }

  function ActionsSettled(fates: seq<Fate>): seq<LockAction> {
    seq(|fates|, i requires 0 <= i < |fates| => ActionOf(fates[i]))
  }

  function Held(a: Option<LockAction>): seq<LockAction> {
    if a.Some? then [a.value] else []
  }

  /** The actions that have left the slot. */
  function Departed(s: State): seq<LockAction> {
    ActionsSettled(s.fates) + if s.running.Some? then [s.running.value.action] else []
  }

  /** Accepted actions leave the slot once each and in order; only the last may still wait in it. */
  ghost predicate InOrder(s: State) {
    ActionsAccepted(s.accepted) == Departed(s) + Held(s.slot)
  }

  ghost predicate AllPermitted(s: State) {
    forall i :: 0 <= i < |s.accepted| ==> Permitted(s.accepted[i].action, s.accepted[i].acl)
  }

  ghost predicate RetriesBounded(s: State, n: nat) {
    && (forall i :: 0 <= i < |s.fates| && s.fates[i].Executed? ==> Complete(s.fates[i].execution.results, n))
    && (s.running.Some? ==> Unfinished(s.running.value.results, n))
  }

  lemma StepKeepsOrder(s: State, step: Step, n: nat)
    requires InOrder(s) && AllPermitted(s)
    ensures InOrder(Perform(s, step, n)) && AllPermitted(Perform(s, step, n))
  {
    var s' := Perform(s, step, n);
    if |s'.accepted| > |s.accepted| {
      assert ActionsAccepted(s'.accepted) == ActionsAccepted(s.accepted) + [s'.slot.value];
      assert Departed(s) + Held(s.slot) + [s'.slot.value] == Departed(s') + Held(s'.slot);
    }
    if |s'.fates| > |s.fates| {
      assert ActionsSettled(s'.fates) == ActionsSettled(s.fates) + [ActionOf(s'.fates[|s.fates|])];
      assert Departed(s') + Held(s'.slot) == Departed(s) + Held(s.slot);
    }
    if step == Receive && s' != s {
      assert Departed(s') == Departed(s) + Held(s.slot);
    }
  }

  lemma StepKeepsBound(s: State, step: Step, n: nat)
    requires RetriesBounded(s, n)
    ensures RetriesBounded(Perform(s, step, n), n)
  {
  }

  lemma {:induction false} RunKeeps(s: State, schedule: seq<Step>, n: nat)
    requires InOrder(s) && AllPermitted(s) && RetriesBounded(s, n)
    ensures var s' := Run(s, schedule, n); InOrder(s') && AllPermitted(s') && RetriesBounded(s', n)
    decreases |schedule|
  {
    if schedule == [] {
    } else {
      StepKeepsOrder(s, schedule[0], n);
      StepKeepsBound(s, schedule[0], n);
      RunKeeps(Perform(s, schedule[0], n), schedule[1..], n);
    }
  }

  /**
   * Over every interleaving: the accepted actions are exactly those that left the slot, in order, plus
   * at most one still in it; each passed its access entry when accepted; each executed one caused
   * between 1 and n + 1 device calls, stopped at the first success, and failed only after n + 1 failures.
   */
  lemma ActionsSettledInOrder(schedule: seq<Step>, n: nat)
    ensures var s := Run(INITIAL, schedule, n); InOrder(s) && AllPermitted(s) && RetriesBounded(s, n)
  {
    assert ActionsAccepted([]) == [] && ActionsSettled([]) == [];
    RunKeeps(INITIAL, schedule, n);
  }

  // ----- what becomes of an accepted action

  /** The step that empties the slot: the first receive or restart that finds nothing running. */
  function Emptying(s: State, schedule: seq<Step>, n: nat): Option<Step>
    decreases |schedule|
  {
    if schedule == [] then None
    else if s.running == None && (schedule[0] == Receive || schedule[0] == Restart) then Some(schedule[0])
    else Emptying(Perform(s, schedule[0], n), schedule[1..], n)
  }

  /** The `k`-th accepted action was dropped, or handed to the device, or has not left the slot. */
  predicate WasDropped(s: State, k: nat) {
    k < |s.fates| && s.fates[k].Dropped?
  }

  predicate WasTaken(s: State, k: nat) {
    if k < |s.fates| then s.fates[k].Executed? else k == |s.fates| && s.running.Some?
  }

  predicate IsWaiting(s: State, k: nat) {
    k == |Departed(s)| && s.slot.Some?
  }

  lemma {:induction false} HistoryGrows(s: State, schedule: seq<Step>, n: nat)
    ensures s.fates <= Run(s, schedule, n).fates
    ensures s.running.Some? ==> WasTaken(Run(s, schedule, n), |s.fates|)
    decreases |schedule|
  {
    if schedule == [] {
    } else {
      var s' := Perform(s, schedule[0], n);
      HistoryGrows(s', schedule[1..], n);
      assert s.fates <= s'.fates;
    }
  }

  lemma {:induction false} FateOfHeldAction(s: State, schedule: seq<Step>, n: nat)
    requires s.slot.Some?
    ensures var (k, s', first) := (|Departed(s)|, Run(s, schedule, n), Emptying(s, schedule, n));
      && (WasDropped(s', k) <==> first == Some(Restart))
      && (WasTaken(s', k) <==> first == Some(Receive))
      && (IsWaiting(s', k) <==> first == None)
    decreases |schedule|
  {
    if schedule == [] {
    } else {
      var s' := Perform(s, schedule[0], n);
      if s.running == None && (schedule[0] == Receive || schedule[0] == Restart) {
        HistoryGrows(s', schedule[1..], n);
        assert |Departed(Run(s', schedule[1..], n))| > |Departed(s)|;
      } else {
        assert |Departed(s')| == |Departed(s)|;
        FateOfHeldAction(s', schedule[1..], n);
      }
    }
  }

  lemma {:induction false} RunConcat(s: State, a: seq<Step>, b: seq<Step>, n: nat)
    ensures Run(s, a + b, n) == Run(Run(s, a, n), b, n)
    decreases |a|
  {
    if a == [] {
      assert a + b == b;
    } else {
      assert (a + b)[0] == a[0] && (a + b)[1..] == a[1..] + b;
      RunConcat(Perform(s, a[0], n), a[1..], b, n);
    }
  }

  /**
   * The fate of every accepted action in every schedule: it is dropped iff a restart comes before the
   * next receive, reaches the device iff the receive comes first, and waits while neither has come.
   */
  lemma DroppedIffRestartedFirst(before: seq<Step>, request: Step, after: seq<Step>, n: nat)
    requires request.Request?
    requires var s := Run(INITIAL, before, n); |Perform(s, request, n).accepted| > |s.accepted|
    ensures var k := |Run(INITIAL, before, n).accepted|;
      var accepting := Perform(Run(INITIAL, before, n), request, n);
      var (end, first) := (Run(INITIAL, before + [request] + after, n), Emptying(accepting, after, n));
      && k < |end.accepted| && Some(end.accepted[k].action) == accepting.slot
      && (WasDropped(end, k) <==> first == Some(Restart))
      && (WasTaken(end, k) <==> first == Some(Receive))
      && (IsWaiting(end, k) <==> first == None)
  {
    var s := Run(INITIAL, before, n);
    var accepting := Perform(s, request, n);
    ActionsSettledInOrder(before, n);
    StepKeepsOrder(s, request, n);
    assert |ActionsAccepted(accepting.accepted)| == |Departed(accepting)| + 1;
    assert Run(s, [request], n) == accepting by { assert [request][1..] == []; }
    RunConcat(INITIAL, before, [request], n);
    RunConcat(INITIAL, before + [request], after, n);
    FateOfHeldAction(accepting, after, n);
    AcceptancesGrow(accepting, after, n);
  }

  lemma {:induction false} AcceptancesGrow(s: State, schedule: seq<Step>, n: nat)
    ensures s.accepted <= Run(s, schedule, n).accepted
    decreases |schedule|
  {
    if schedule == [] {
    } else {
      AcceptancesGrow(Perform(s, schedule[0], n), schedule[1..], n);
    }
  }

  /** An action answered with Success that never reaches the device. */
  lemma AcceptedActionCanBeDropped(acl: Acl)
    requires acl[0] == 1
    ensures Answer(None, Some("lock"), acl).1 == Success
    ensures Run(INITIAL, [Request(Some("lock"), acl), Restart, Receive], 3)
         == State(None, None, [Acceptance(Lock, acl)], [Dropped(Lock)])
  {
    var c := [Request(Some("lock"), acl), Restart, Receive];
    var s1 := State(Some(Lock), None, [Acceptance(Lock, acl)], []);
    assert Perform(INITIAL, c[0], 3) == s1;
    assert Run(s1, [Restart, Receive], 3) == State(None, None, [Acceptance(Lock, acl)], [Dropped(Lock)]);
    assert c[1..] == [Restart, Receive];
  }

  /** The five answers, by what a caller can check; anything but Success leaves the state alone. */
  lemma AnswerMeaning(s: State, value: Option<string>, acl: Acl, n: nat)
    ensures var (slot, result) := Answer(s.slot, value, acl);
      var action := if value.Some? then LockActionToEnum(value.value) else None;
      && (result == UnknownAction <==> action == None)
      && (result == AccessDenied <==> action.Some? && acl[AclIndex(action.value)] != 1)
      && (result == Busy <==> action.Some? && acl[AclIndex(action.value)] == 1 && s.slot.Some?)
      && (result == Success <==> action.Some? && acl[AclIndex(action.value)] == 1 && s.slot == None)
      && (result == Success ==> slot == action)
      && (result != Success ==> slot == s.slot)
      && Perform(s, Request(value, acl), n) ==
           if result == Success
           then s.(slot := action, accepted := s.accepted + [Acceptance(action.value, acl)])
           else s
  {
  }

  /** The two spellings under which the REST API takes an action. */
  predicate Names(value: Option<string>, lower: string, upper: string) {
    value == Some(lower) || value == Some(upper)
  }

  /** What a request does to an empty slot: `action` is queued iff it is named and its entry is 1. */
  predicate Queued(value: Option<string>, acl: Acl, action: LockAction) {
    Answer(None, value, acl) == (Some(action), Success)
  }

  /** The access list of the REST API, action by action: its spellings, its entry, and what is queued. */
  lemma QueuedExactly(value: Option<string>, acl: Acl)
    ensures Queued(value, acl, Lock) <==> Names(value, "lock", "Lock") && acl[0] == 1
    ensures Queued(value, acl, Unlock) <==> Names(value, "unlock", "Unlock") && acl[1] == 1
    ensures Queued(value, acl, Unlatch) <==> Names(value, "unlatch", "Unlatch") && acl[2] == 1
    ensures Queued(value, acl, LockNgo) <==> Names(value, "lockNgo", "LockNgo") && acl[3] == 1
    ensures Queued(value, acl, LockNgoUnlatch) <==> Names(value, "lockNgoUnlatch", "LockNgoUnlatch") && acl[4] == 1
    ensures Queued(value, acl, FullLock) <==> Names(value, "fullLock", "FullLock") && acl[5] == 1
    ensures Queued(value, acl, FobAction1) <==> Names(value, "fobAction1", "FobAction1") && acl[6] == 1
    ensures Queued(value, acl, FobAction2) <==> Names(value, "fobAction2", "FobAction2") && acl[7] == 1
    ensures Queued(value, acl, FobAction3) <==> Names(value, "fobAction3", "FobAction3") && acl[8] == 1
  {
    hide LockActionToEnum;
    if value.Some? {
      Decoded(value.value);
    }
  }

  lemma Decoded(str: string)
    ensures LockActionToEnum(str) == Some(Lock) <==> str == "lock" || str == "Lock"
    ensures LockActionToEnum(str) == Some(Unlock) <==> str == "unlock" || str == "Unlock"
    ensures LockActionToEnum(str) == Some(Unlatch) <==> str == "unlatch" || str == "Unlatch"
    ensures LockActionToEnum(str) == Some(LockNgo) <==> str == "lockNgo" || str == "LockNgo"
    ensures LockActionToEnum(str) == Some(LockNgoUnlatch) <==> str == "lockNgoUnlatch" || str == "LockNgoUnlatch"
    ensures LockActionToEnum(str) == Some(FullLock) <==> str == "fullLock" || str == "FullLock"
    ensures LockActionToEnum(str) == Some(FobAction1) <==> str == "fobAction1" || str == "FobAction1"
    ensures LockActionToEnum(str) == Some(FobAction2) <==> str == "fobAction2" || str == "FobAction2"
    ensures LockActionToEnum(str) == Some(FobAction3) <==> str == "fobAction3" || str == "FobAction3"
  {
  }

  /** Whether the value names an action at all. */
  predicate NamesAnAction(value: Option<string>) {
    || Names(value, "lock", "Lock") || Names(value, "unlock", "Unlock") || Names(value, "unlatch", "Unlatch")
    || Names(value, "lockNgo", "LockNgo") || Names(value, "lockNgoUnlatch", "LockNgoUnlatch")
    || Names(value, "fullLock", "FullLock") || Names(value, "fobAction1", "FobAction1")
    || Names(value, "fobAction2", "FobAction2") || Names(value, "fobAction3", "FobAction3")
  }

  /**
   * The other answers by the same table: a value is unknown iff it names no action, access is denied iff it
   * names one that an empty slot would not take, and the wrapper is busy iff the slot would take it but is
   * full. None of them touches the slot.
   */
  lemma RefusedExactly(slot: Option<LockAction>, value: Option<string>, acl: Acl)
    ensures var (slot', result) := Answer(slot, value, acl);
      var takeable := exists action :: Queued(value, acl, action);
      && (result == UnknownAction <==> !NamesAnAction(value))
      && (result == AccessDenied <==> NamesAnAction(value) && !takeable)
      && (result == Busy <==> takeable && slot.Some?)
      && (result == Success <==> takeable && slot == None)
      && (result == Success ==> Queued(value, acl, slot'.value))
      && (result != Success ==> slot' == slot)
  {
    hide AclIndex;
    if value.Some? && LockActionToEnum(value.value).Some? {
      var action := LockActionToEnum(value.value).value;
      assert Queued(value, acl, action) <==> Permitted(action, acl);
    }
  }
}
