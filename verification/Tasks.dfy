/**
 * The two FreeRTOS tasks around the lock: the reboot flag handed from `networkTask` to `nukiTask`, and
 * the escalation from BLE restarts to a restart of the ESP. Every step below is atomic; a schedule is
 * any sequence of them.
 */
module Tasks {
  import opened Options

  datatype Fault = NoFault | DisconnectError | BeaconWatchdog

  datatype EspRestart = BLEError | BLEBeaconWatchdog

  /** `networkTask`: serving requests, or holding the flag it has just consumed. */
  datatype NetworkPc = Serving | Storing(value: bool)

  /** `nukiTask`: between two calls of `update`, or inside one and before clearing the flag. */
  datatype NukiPc = Between | Updating

  /** The history of a run: what the device and the network ask for, and what `nukiTask` does about it. */
  datatype Event =
    | Faulted(fault: Fault) | Connected | RestartServed
    | BleRestart | ConnectionSeen | EspRestarted(reason: EspRestart)

  /** Where an accepted reboot request is, or what became of it. */
  datatype Status =
    | Pending      // accepted
    | Consumed     // taken by networkTask, not stored yet
    | Flagged      // in the flag, not seen by nukiTask
    | Delivered    // handed to the wrapper by update(true)
    | Coalesced    // accepted while another one was pending
    | Overwritten  // the flag was stored again before nukiTask read it
    | Erased       // the flag was cleared before nukiTask read it

  /**
   * The last three fields are bookkeeping of the proof: the status of every accepted request in the order
   * of acceptance, the number of calls of `update(true)`, and the history of faults and restarts.
   */
  datatype State = State(
    rebootPending: bool, networkPc: NetworkPc, rebootLock: bool, nukiPc: NukiPc,
    attempts: nat, fault: Fault, hasConnected: bool, halted: Option<EspRestart>,
    requests: seq<Status>, reboots: nat, events: seq<Event>)

  datatype Step =
    | Accept                  // POST /lock/reboot
    | Consume                 // consumeRebootLockRequest
    | Store                   // rebootLock = ...
    | RestartRequest          // restartServices on request; no code makes the request, so this only adds schedules
    | NukiLoop                // nukiTask up to the call of update(rebootLock)
    | Clear                   // update has returned; rebootLock = false
    | RaiseFault(f: Fault)    // BLE error or lost beacon
    | Connect                 // first key turner state received

  const INITIAL := State(false, Serving, false, Between, 0, NoFault, false, None, [], 0, [])

  function Reason(f: Fault): EspRestart {
    if f == DisconnectError then BLEError else BLEBeaconWatchdog
  }

  /** Every request at `from` moves on to `to`. */
  function Move(requests: seq<Status>, from: Status, to: Status): (r: seq<Status>)
    ensures |r| == |requests|
    ensures forall k :: 0 <= k < |r| ==> r[k] == if requests[k] == from then to else requests[k]
  {
    seq(|requests|, k requires 0 <= k < |requests| => if requests[k] == from then to else requests[k])
  }

  function OnAccept(s: State): State {
    s.(rebootPending := true, requests := s.requests + [if s.rebootPending then Coalesced else Pending])
  }

  function OnConsume(s: State): State {
    s.(networkPc := Storing(s.rebootPending), rebootPending := false, requests := Move(s.requests, Pending, Consumed))
  }

  function OnStore(s: State, value: bool): State {
    s.(rebootLock := value, networkPc := Serving,
       requests := Move(Move(s.requests, Flagged, Overwritten), Consumed, Flagged))
  }

  function OnFault(s: State): State {
    if s.attempts > 3 then s.(halted := Some(Reason(s.fault)), events := s.events + [EspRestarted(Reason(s.fault))])
    else s.(attempts := s.attempts + 1, fault := NoFault, hasConnected := false, events := s.events + [BleRestart])
  }

  function OnUpdate(s: State): State {
    var seen := s.attempts > 0 && s.hasConnected;
    s.(attempts := if seen then 0 else s.attempts, events := if seen then s.events + [ConnectionSeen] else s.events,
       nukiPc := Updating, requests := Move(s.requests, Flagged, Delivered),
       reboots := s.reboots + if s.rebootLock then 1 else 0)
  }

  function OnClear(s: State): State {
    s.(rebootLock := false, nukiPc := Between, requests := Move(s.requests, Flagged, Erased))
  }

  /** A step that is not enabled leaves the state as it is. */
  predicate Enabled(s: State, step: Step) {
    s.halted == None &&
    match step
    case Accept | Consume => s.networkPc == Serving
    case Store => s.networkPc.Storing?
    case RestartRequest => s.networkPc == Serving && s.nukiPc == Between
    case NukiLoop => s.nukiPc == Between
    case Clear => s.nukiPc == Updating
    case RaiseFault(f) => f != NoFault
    case Connect => true
  }

  function Perform(s: State, step: Step): State {
    if !Enabled(s, step) then s
    else match step
      case Accept => OnAccept(s)
      case Consume => OnConsume(s)
      case Store => OnStore(s, s.networkPc.value)
      case RestartRequest => s.(fault := NoFault, hasConnected := false, events := s.events + [RestartServed])
      case NukiLoop => if s.fault != NoFault then OnFault(s) else OnUpdate(s)
      case Clear => OnClear(s)
      case RaiseFault(f) => s.(fault := f, events := s.events + [Faulted(f)])
      case Connect => s.(hasConnected := true, events := s.events + [Connected])
  }

  function Run(s: State, schedule: seq<Step>): State
    decreases |schedule|
  {
    if schedule == [] then s else Run(Perform(s, schedule[0]), schedule[1..])
  }

  class Firmware {
    var rebootPending: bool
    var networkPc: NetworkPc
    var rebootLock: bool
    var nukiPc: NukiPc
    var attempts: nat
    var fault: Fault
    var hasConnected: bool
    var halted: Option<EspRestart>
    ghost var requests: seq<Status>
    ghost var reboots: nat
    ghost var events: seq<Event>

    ghost function View(): State
      reads this
    {
      State(rebootPending, networkPc, rebootLock, nukiPc, attempts, fault, hasConnected, halted, requests, reboots, events)
    }

    constructor ()
      ensures View() == INITIAL
    {
      rebootPending, networkPc, rebootLock, nukiPc := false, Serving, false, Between;
      attempts, fault, hasConnected, halted := 0, NoFault, false, None;
      requests, reboots, events := [], 0, [];
    }

    /** One turn of `networkTask`'s part in the hand-over. */
    method NetworkStep(step: Step)
      requires step in {Accept, Consume, Store} && Enabled(View(), step)
      modifies this
      ensures View() == Perform(old(View()), step)
    {
      if step == Accept {
        requests := requests + [if rebootPending then Coalesced else Pending];
        rebootPending := true;
      } else if step == Consume {
        var pending := rebootPending;
        rebootPending := false;
        requests := Move(requests, Pending, Consumed);
        networkPc := Storing(pending);
      } else {
        rebootLock := networkPc.value;
        requests := Move(Move(requests, Flagged, Overwritten), Consumed, Flagged);
        networkPc := Serving;
      }
    }

    /** `restartServices(false)` as far as it reaches this state: a new `NukiWrapper`. */
    method RestartServices()
      modifies this`fault, this`hasConnected
      ensures fault == NoFault && !hasConnected
    {
      fault := NoFault;
      hasConnected := false;
    }

    /** The body of `nukiTask` from the fault check to the call of `update`. */
    method NukiLoopBody()
      requires Enabled(View(), NukiLoop)
      modifies this
      ensures View() == Perform(old(View()), NukiLoop)
    {
      if fault != NoFault {
        if attempts > 3 {
          if fault == DisconnectError {
            halted := Some(BLEError);
          } else if fault == BeaconWatchdog {
            halted := Some(BLEBeaconWatchdog);
          }
          events := events + [EspRestarted(halted.value)];
        } else {
          attempts := attempts + 1;
          events := events + [BleRestart];
          RestartServices();
        }
      } else {
        if attempts > 0 && hasConnected {
          attempts := 0;
          events := events + [ConnectionSeen];
        }
        reboots := reboots + if rebootLock then 1 else 0;
        requests := Move(requests, Flagged, Delivered);
        nukiPc := Updating;
      }
    }

    method NukiStep(step: Step)
      requires step in {NukiLoop, Clear} && Enabled(View(), step)
      modifies this
      ensures View() == Perform(old(View()), step)
    {
      if step == NukiLoop {
        NukiLoopBody();
      } else {
        rebootLock := false;
        requests := Move(requests, Flagged, Erased);
        nukiPc := Between;
      }
    }

    method PerformStep(step: Step)
      requires Enabled(View(), step)
      modifies this
      ensures View() == Perform(old(View()), step)
    {
      match step {
        case Accept | Consume | Store => NetworkStep(step);
        case RestartRequest =>
          RestartServices();
          events := events + [RestartServed];
        case NukiLoop | Clear => NukiStep(step);
        case RaiseFault(f) =>
          fault := f;
          events := events + [Faulted(f)];
        case Connect =>
          hasConnected := true;
          events := events + [Connected];
      }
    }

    method IsEnabled(step: Step) returns (enabled: bool)
      ensures enabled == Enabled(View(), step)
    {
      if halted.Some? {
        return false;
      }
      match step {
        case Accept | Consume => enabled := networkPc == Serving;
        case Store => enabled := networkPc.Storing?;
        case RestartRequest => enabled := networkPc == Serving && nukiPc == Between;
        case NukiLoop => enabled := nukiPc == Between;
        case Clear => enabled := nukiPc == Updating;
        case RaiseFault(f) => enabled := f != NoFault;
        case Connect => enabled := true;
      }
    }

    /** Any interleaving: the scheduler picks the steps, the tasks perform those that are enabled. */
    method Execute(schedule: seq<Step>)
      requires View() == INITIAL
      modifies this
      ensures View() == Run(INITIAL, schedule)
      ensures reboots <= |requests| && attempts <= 4
    {
      var i := 0;
      while i < |schedule|
        invariant 0 <= i <= |schedule|
        invariant Run(View(), schedule[i..]) == Run(INITIAL, schedule)
      {
        RunFirst(View(), schedule, i);
        var enabled := IsEnabled(schedule[i]);
        if enabled {
          PerformStep(schedule[i]);
        }
        i := i + 1;
      }
      assert schedule[i..] == [];
      RebootAtMostOnce(schedule);
      RestartEscalation(schedule, 0, 0);
    }
  }

  // ----- the reboot flag

  function Count(requests: seq<Status>, status: Status): (n: nat)
    ensures n <= |requests|
  {
    if requests == [] then 0 else (if requests[0] == status then 1 else 0) + Count(requests[1..], status)
  }

  lemma {:induction false} CountMove(requests: seq<Status>, from: Status, to: Status, status: Status)
    requires from != to
    ensures Count(Move(requests, from, to), status) ==
      if status == from then 0
      else Count(requests, status) + if status == to then Count(requests, from) else 0
  {
    if requests == [] {
    } else {
      hide Move;
      var moved := Move(requests, from, to);
      CountMove(requests[1..], from, to, status);
      hide Count;
      assert moved[1..] == Move(requests[1..], from, to);
      CountStep(requests, status);
      CountStep(requests, from);
      CountStep(moved, status);
    }
  }

  lemma CountStep(requests: seq<Status>, status: Status)
    requires requests != []
    ensures Count(requests, status) == (if requests[0] == status then 1 else 0) + Count(requests[1..], status)
  {
  }

  lemma {:induction false} CountAppend(requests: seq<Status>, last: Status, status: Status)
    ensures Count(requests + [last], status) == Count(requests, status) + if last == status then 1 else 0
  {
    if requests == [] {
      assert [] + [last] == [last];
    } else {
      CountAppend(requests[1..], last, status);
      assert (requests + [last])[1..] == requests[1..] + [last];
    }
  }

  /**
   * Each place holds at most one request and exactly what the two tasks see: a request is pending iff the
   * server says so and consumed iff `networkTask` is about to store it; the flag holds an unseen request
   * iff it is set while `nukiTask` is between two calls. Delivered requests are calls of `update(true)`.
   */
  ghost predicate Tracked(s: State) {
    && Count(s.requests, Pending) == (if s.rebootPending then 1 else 0)
    && Count(s.requests, Consumed) == (if s.networkPc == Storing(true) then 1 else 0)
    && Count(s.requests, Flagged) <= (if s.rebootLock then 1 else 0)
    && (s.nukiPc == Between && s.rebootLock ==> Count(s.requests, Flagged) == 1)
    && Count(s.requests, Delivered) == s.reboots
  }

  /** The counts after one of the four movements. */
  lemma CountsAfterMove(requests: seq<Status>, from: Status, to: Status)
    requires from != to
    ensures var r := Move(requests, from, to);
      && Count(r, from) == 0 && Count(r, to) == Count(requests, to) + Count(requests, from)
      && forall status: Status :: status != from && status != to ==> Count(r, status) == Count(requests, status)
  {
    forall status: Status
      ensures Count(Move(requests, from, to), status) ==
        if status == from then 0
        else Count(requests, status) + if status == to then Count(requests, from) else 0
    {
      CountMove(requests, from, to, status);
    }
  }

  lemma AcceptTracks(s: State)
    requires Tracked(s)
    ensures Tracked(OnAccept(s))
  {
    hide Count;
    forall status: Status
      ensures Count(OnAccept(s).requests, status) == Count(s.requests, status)
        + if status == (if s.rebootPending then Coalesced else Pending) then 1 else 0
    {
      CountAppend(s.requests, if s.rebootPending then Coalesced else Pending, status);
    }
  }

  lemma StoreTracks(s: State)
    requires Tracked(s) && s.networkPc.Storing?
    ensures Tracked(OnStore(s, s.networkPc.value))
  {
    hide Count, Move;
    CountsAfterMove(s.requests, Flagged, Overwritten);
    CountsAfterMove(Move(s.requests, Flagged, Overwritten), Consumed, Flagged);
  }

  lemma UpdateTracks(s: State)
    requires Tracked(s) && s.nukiPc == Between
    ensures Tracked(OnUpdate(s))
  {
    hide Count, Move;
    CountsAfterMove(s.requests, Flagged, Delivered);
  }

  lemma StepTracks(s: State, step: Step)
    requires Tracked(s)
    ensures Tracked(Perform(s, step))
  {
    hide Count, Move, OnAccept, OnStore, OnUpdate;
    if Enabled(s, step) {
      match step {
        case Accept => AcceptTracks(s);
        case Consume => CountsAfterMove(s.requests, Pending, Consumed);
        case Store => StoreTracks(s);
        case NukiLoop => if s.fault == NoFault { UpdateTracks(s); }
        case Clear => CountsAfterMove(s.requests, Flagged, Erased);
        case RestartRequest | RaiseFault(_) | Connect =>
      }
    }
  }

  lemma {:induction false} RunTracks(s: State, schedule: seq<Step>)
    requires Tracked(s)
    ensures Tracked(Run(s, schedule))
    decreases |schedule|
  {
    if schedule == [] {
    } else {
      StepTracks(s, schedule[0]);
      RunTracks(Perform(s, schedule[0]), schedule[1..]);
    }
  }

  /**
   * At most once: over every interleaving the calls of `update(true)` are as many as the requests counted
   * as delivered, each of them one of the accepted requests, and each place holds at most one request.
   */
  lemma RebootAtMostOnce(schedule: seq<Step>)
    ensures var s := Run(INITIAL, schedule); Tracked(s) && s.reboots <= |s.requests|
  {
    RunTracks(INITIAL, schedule);
  }

  /** The steps that take a request on: from the server, into the flag, and out of the flag. */
  datatype Movement = Consuming | Storage | Decision

  predicate Effective(s: State, step: Step, movement: Movement) {
    Enabled(s, step) &&
    match movement
    case Consuming => step == Consume
    case Storage => step == Store
    case Decision => step == Store || step == Clear || (step == NukiLoop && s.fault == NoFault)
  }

  /** The position of the first effective step of a kind in a schedule, or its length. */
  function Await(s: State, schedule: seq<Step>, movement: Movement): (i: nat)
    ensures i <= |schedule|
    decreases |schedule|
  {
    if schedule == [] || Effective(s, schedule[0], movement) then 0
    else 1 + Await(Perform(s, schedule[0]), schedule[1..], movement)
  }

  /** What becomes of a request in the flag: the first step that reads, stores or clears the flag decides. */
  function FateInFlag(s: State, schedule: seq<Step>): Status {
    var d := Await(s, schedule, Decision);
    if d == |schedule| then Flagged
    else Outcome(schedule[d])
  }

  function Outcome(decision: Step): Status {
    if decision == NukiLoop then Delivered else if decision == Store then Overwritten else Erased
  }

  function FateConsumed(s: State, schedule: seq<Step>): Status {
    var t := Await(s, schedule, Storage);
    if t == |schedule| then Consumed else FateInFlag(Run(s, schedule[..t + 1]), schedule[t + 1..])
  }

  function FatePending(s: State, schedule: seq<Step>): Status {
    var c := Await(s, schedule, Consuming);
    if c == |schedule| then Pending else FateConsumed(Run(s, schedule[..c + 1]), schedule[c + 1..])
  }

  function Origin(movement: Movement): Status {
    match movement
    case Consuming => Pending
    case Storage => Consumed
    case Decision => Flagged
  }

  /** One step moves a request exactly if it is effective for the place where the request is. */
  lemma StepStatus(s: State, step: Step, k: nat)
    requires k < |s.requests|
    ensures k < |Perform(s, step).requests|
    ensures var (status, status') := (s.requests[k], Perform(s, step).requests[k]);
      && (status !in {Pending, Consumed, Flagged} ==> status' == status)
      && (status == Pending ==> status' == if Effective(s, step, Consuming) then Consumed else Pending)
      && (status == Consumed ==> status' == if Effective(s, step, Storage) then Flagged else Consumed)
      && (status == Flagged ==> status' == if Effective(s, step, Decision) then Outcome(step) else Flagged)
  {
  }

  /** A request stays where it is until the first effective step of the kind that moves it. */
  lemma {:induction false} StaysUntil(s: State, schedule: seq<Step>, movement: Movement, k: nat)
    requires k < |s.requests| && s.requests[k] == Origin(movement)
    ensures var i := Await(s, schedule, movement);
      var s' := Run(s, schedule[..i]);
      && k < |s'.requests| && s'.requests[k] == s.requests[k]
      && (i < |schedule| ==> Effective(s', schedule[i], movement))
    decreases |schedule|
  {
    hide Perform, Effective;
    var i := Await(s, schedule, movement);
    if i == 0 {
      assert schedule[..0] == [];
    } else {
      StepStatus(s, schedule[0], k);
      StaysUntil(Perform(s, schedule[0]), schedule[1..], movement, k);
      assert schedule[..i][1..] == schedule[1..][..i - 1];
    }
  }

  lemma SplitRun(s: State, schedule: seq<Step>, i: nat)
    requires i < |schedule|
    ensures Run(s, schedule[..i + 1]) == Perform(Run(s, schedule[..i]), schedule[i])
    ensures Run(s, schedule) == Run(Run(s, schedule[..i + 1]), schedule[i + 1..])
  {
    var last := [schedule[i]];
    RunConcat(s, schedule[..i], last);
    assert schedule[..i] + last == schedule[..i + 1] && last[1..] == [];
    RunConcat(s, schedule[..i + 1], schedule[i + 1..]);
    assert schedule[..i + 1] + schedule[i + 1..] == schedule;
  }

  /** What has happened to a request stays so. */
  lemma {:induction false} FateIsFinal(s: State, schedule: seq<Step>, k: nat)
    requires k < |s.requests| && s.requests[k] !in {Pending, Consumed, Flagged}
    ensures k < |Run(s, schedule).requests| && Run(s, schedule).requests[k] == s.requests[k]
    decreases |schedule|
  {
    hide Perform;
    if schedule == [] {
    } else {
      StepStatus(s, schedule[0], k);
      FateIsFinal(Perform(s, schedule[0]), schedule[1..], k);
    }
  }

  lemma FromFlag(s: State, schedule: seq<Step>, k: nat)
    requires k < |s.requests| && s.requests[k] == Flagged
    ensures k < |Run(s, schedule).requests| && Run(s, schedule).requests[k] == FateInFlag(s, schedule)
  {
    hide Perform, Effective, Run, Await;
    var d := Await(s, schedule, Decision);
    StaysUntil(s, schedule, Decision, k);
    assert d == |schedule| ==> schedule[..d] == schedule;
    if d < |schedule| {
      SplitRun(s, schedule, d);
      StepStatus(Run(s, schedule[..d]), schedule[d], k);
      FateIsFinal(Run(s, schedule[..d + 1]), schedule[d + 1..], k);
    }
  }

  lemma FromNetworkTask(s: State, schedule: seq<Step>, k: nat)
    requires k < |s.requests| && s.requests[k] == Consumed
    ensures k < |Run(s, schedule).requests| && Run(s, schedule).requests[k] == FateConsumed(s, schedule)
  {
    hide Perform, Effective, Run, Await;
    var t := Await(s, schedule, Storage);
    StaysUntil(s, schedule, Storage, k);
    assert t == |schedule| ==> schedule[..t] == schedule;
    if t < |schedule| {
      SplitRun(s, schedule, t);
      StepStatus(Run(s, schedule[..t]), schedule[t], k);
      FromFlag(Run(s, schedule[..t + 1]), schedule[t + 1..], k);
    }
  }

  lemma FromServer(s: State, schedule: seq<Step>, k: nat)
    requires k < |s.requests| && s.requests[k] == Pending
    ensures k < |Run(s, schedule).requests| && Run(s, schedule).requests[k] == FatePending(s, schedule)
  {
    hide Perform, Effective, Run, Await;
    var c := Await(s, schedule, Consuming);
    StaysUntil(s, schedule, Consuming, k);
    assert c == |schedule| ==> schedule[..c] == schedule;
    if c < |schedule| {
      SplitRun(s, schedule, c);
      StepStatus(Run(s, schedule[..c]), schedule[c], k);
      FromNetworkTask(Run(s, schedule[..c + 1]), schedule[c + 1..], k);
    }
  }

  lemma {:induction false} RunConcat(s: State, a: seq<Step>, b: seq<Step>)
    ensures Run(s, a + b) == Run(Run(s, a), b)
    decreases |a|
  {
    if a == [] {
      assert a + b == b;
    } else {
      assert (a + b)[0] == a[0] && (a + b)[1..] == a[1..] + b;
      RunConcat(Perform(s, a[0]), a[1..], b);
    }
  }

  /**
   * The fate of every accepted request in every schedule, whatever other requests are accepted before and
   * after it: it is merged into another one iff that one was still pending; otherwise it is delivered iff
   * `networkTask` consumes and stores it and the first enabled call of `update`, store or clearing after
   * that is the call, overwritten iff it is a store, erased iff it is the clearing, and under way until then.
   */
  lemma DeliveredIffReadFirst(before: seq<Step>, after: seq<Step>)
    requires Enabled(Run(INITIAL, before), Accept)
    ensures var (s, end) := (Run(INITIAL, before), Run(INITIAL, before + [Accept] + after));
      var k := |s.requests|;
      && k < |end.requests|
      && end.requests[k] == if s.rebootPending then Coalesced else FatePending(OnAccept(s), after)
  {
    var s := Run(INITIAL, before);
    assert Run(s, [Accept]) == OnAccept(s) by { assert [Accept][1..] == []; }
    RunConcat(INITIAL, before, [Accept]);
    RunConcat(INITIAL, before + [Accept], after);
    if s.rebootPending {
      FateIsFinal(OnAccept(s), after, |s.requests|);
    } else {
      FromServer(OnAccept(s), after, |s.requests|);
    }
  }

  /** Undisturbed, a request is always delivered: from every reachable state between two turns without a fault. */
  lemma UndisturbedIsDelivered(before: seq<Step>)
    requires var s := Run(INITIAL, before);
      s.halted == None && s.networkPc == Serving && s.nukiPc == Between && s.fault == NoFault
    ensures Run(INITIAL, before + [Accept, Consume, Store, NukiLoop]).reboots == Run(INITIAL, before).reboots + 1
  {
    var s := Run(INITIAL, before);
    RunConcat(INITIAL, before, [Accept, Consume, Store, NukiLoop]);
    assert Run(s, [Accept, Consume, Store, NukiLoop]).reboots == s.reboots + 1;
  }

  /** Not exactly once: the next network loop can overwrite the flag ... */
  lemma RebootCanBeOverwritten()
    ensures Run(INITIAL, [Accept, Consume, Store, Consume, Store, NukiLoop]).requests == [Overwritten]
    ensures Run(INITIAL, [Accept, Consume, Store, Consume, Store, NukiLoop]).reboots == 0
  {
  }

  /** ... and the end of `update` can erase it. */
  lemma RebootCanBeErased()
    ensures Run(INITIAL, [NukiLoop, Accept, Consume, Store, Clear, NukiLoop]).requests == [Erased]
    ensures Run(INITIAL, [NukiLoop, Accept, Consume, Store, Clear, NukiLoop]).reboots == 0
  {
  }

  /** Each task does one thing at a time, and none does anything once the ESP restarts. */
  lemma TasksAreSequential(s: State, step: Step)
    ensures s.networkPc.Storing? && step in {Accept, Consume, RestartRequest} ==> Perform(s, step) == s
    ensures s.networkPc == Serving && step == Store ==> Perform(s, step) == s
    ensures s.nukiPc == Updating && step in {NukiLoop, RestartRequest} ==> Perform(s, step) == s
    ensures s.nukiPc == Between && step == Clear ==> Perform(s, step) == s
    ensures s.halted.Some? ==> Perform(s, step) == s
  {
  }

  lemma RunFirst(s: State, c: seq<Step>, i: nat)
    requires i < |c|
    ensures Run(s, c[i..]) == Run(Perform(s, c[i]), c[i + 1..])
  {
    assert c[i..][1..] == c[i + 1..];
  }

  // ----- escalation

  /** BLE restarts since a connection was last seen. */
  function SinceConnection(events: seq<Event>): nat {
    if events == [] then 0
    else
      var before := SinceConnection(events[..|events| - 1]);
      match events[|events| - 1]
      case BleRestart => before + 1
      case ConnectionSeen => 0
      case _ => before
  }

  /** The device has connected since the wrapper was last rebuilt. */
  predicate HasConnected(events: seq<Event>) {
    events != [] &&
    match events[|events| - 1]
    case Connected => true
    case BleRestart | RestartServed => false
    case _ => HasConnected(events[..|events| - 1])
  }

  /** The last fault since then. */
  function PendingFault(events: seq<Event>): Fault {
    if events == [] then NoFault
    else match events[|events| - 1]
      case Faulted(f) => f
      case BleRestart | RestartServed => NoFault
      case _ => PendingFault(events[..|events| - 1])
  }

  lemma AfterEvent(events: seq<Event>, e: Event)
    ensures SinceConnection(events + [e]) ==
      if e == BleRestart then SinceConnection(events) + 1 else if e == ConnectionSeen then 0 else SinceConnection(events)
    ensures HasConnected(events + [e]) <==>
      e == Connected || (e != BleRestart && e != RestartServed && HasConnected(events))
    ensures PendingFault(events + [e]) ==
      if e.Faulted? then e.fault else if e == BleRestart || e == RestartServed then NoFault else PendingFault(events)
  {
    assert (events + [e])[..|events|] == events;
  }

  /** What `nukiTask` has to do about a history when it comes to check for faults. */
  function Response(events: seq<Event>): seq<Event> {
    match PendingFault(events)
    case NoFault => if SinceConnection(events) > 0 && HasConnected(events) then [ConnectionSeen] else []
    case DisconnectError => if SinceConnection(events) < 4 then [BleRestart] else [EspRestarted(BLEError)]
    case BeaconWatchdog => if SinceConnection(events) < 4 then [BleRestart] else [EspRestarted(BLEBeaconWatchdog)]
  }

  /** The variables of the two tasks mean what the history says. */
  ghost predicate Remembers(s: State) {
    && s.attempts == SinceConnection(s.events) <= 4
    && s.hasConnected == HasConnected(s.events)
    && s.fault == PendingFault(s.events)
    && s.halted == (if s.events != [] && s.events[|s.events| - 1].EspRestarted?
                    then Some(s.events[|s.events| - 1].reason) else None)
  }

  /** What a step adds to the history. */
  function Recorded(s: State, step: Step): seq<Event> {
    if !Enabled(s, step) then []
    else match step
      case RaiseFault(f) => [Faulted(f)]
      case Connect => [Connected]
      case RestartRequest => [RestartServed]
      case NukiLoop => Response(s.events)
      case _ => []
  }

  lemma StepRemembers(s: State, step: Step)
    requires Remembers(s)
    ensures Remembers(Perform(s, step)) && Perform(s, step).events == s.events + Recorded(s, step)
  {
    hide SinceConnection, HasConnected, PendingFault;
    if Recorded(s, step) != [] {
      AfterEvent(s.events, Recorded(s, step)[0]);
    }
  }

  lemma {:induction false} RunRemembers(s: State, schedule: seq<Step>)
    requires Remembers(s)
    ensures Remembers(Run(s, schedule))
    decreases |schedule|
  {
    if schedule == [] {
    } else {
      StepRemembers(s, schedule[0]);
      RunRemembers(Perform(s, schedule[0]), schedule[1..]);
    }
  }

  /**
   * The fault handling of `nukiTask`, exactly, after every schedule and from the history alone. With a fault
   * pending it rebuilds the wrapper up to four times and then restarts the ESP, for BLEError after a
   * disconnect error and for BLEBeaconWatchdog after a lost beacon. Without one it starts counting again
   * iff it has rebuilt the wrapper and the device has connected to the new one.
   */
  lemma FaultsAnsweredExactly(schedule: seq<Step>)
    requires Enabled(Run(INITIAL, schedule), NukiLoop)
    ensures var (s, t) := (Run(INITIAL, schedule), Run(INITIAL, schedule + [NukiLoop]));
      && t.events == s.events + Response(s.events)
      && t.attempts == SinceConnection(t.events)
      && (t.halted == Some(BLEError) <==> PendingFault(s.events) == DisconnectError && SinceConnection(s.events) == 4)
      && (t.halted == Some(BLEBeaconWatchdog) <==> PendingFault(s.events) == BeaconWatchdog && SinceConnection(s.events) == 4)
  {
    var s := Run(INITIAL, schedule);
    RunRemembers(INITIAL, schedule);
    RunConcat(INITIAL, schedule, [NukiLoop]);
    assert [NukiLoop][1..] == [];
    StepRemembers(s, NukiLoop);
  }

  // ----- the history against the schedule

  /** The faults and connections in a history. */
  function Signals(events: seq<Event>): seq<Event> {
    if events == [] then []
    else
      var last := events[|events| - 1];
      Signals(events[..|events| - 1]) + if last.Faulted? || last == Connected then [last] else []
  }

  function SignalsOf(schedule: seq<Step>): seq<Event> {
    if schedule == [] then []
    else
      (match schedule[0]
       case RaiseFault(f) => if f != NoFault then [Faulted(f)] else []
       case Connect => [Connected]
       case _ => []) + SignalsOf(schedule[1..])
  }

  lemma SignalsAppend(events: seq<Event>, e: Event)
    ensures Signals(events + [e]) == Signals(events) + if e.Faulted? || e == Connected then [e] else []
  {
    assert (events + [e])[..|events|] == events;
  }

  /** While the ESP runs, the history holds the faults and connections of the schedule, all and in order. */
  lemma {:induction false} SignalsRecorded(s: State, schedule: seq<Step>)
    requires Remembers(s) && Run(s, schedule).halted == None
    ensures Signals(Run(s, schedule).events) == Signals(s.events) + SignalsOf(schedule)
    decreases |schedule|
  {
    if schedule == [] {
    } else {
      hide Perform, Signals, Remembers, SignalsOf;
      StepRemembers(s, schedule[0]);
      SignalsRecorded(Perform(s, schedule[0]), schedule[1..]);
      HaltedStays(s, schedule);
      SignalsOfStep(s, schedule[0]);
      SignalsOfFirst(schedule);
      Regroup(Signals(s.events), SignalsOf([schedule[0]]), SignalsOf(schedule[1..]));
    }
  }

  lemma Regroup<T>(a: seq<T>, b: seq<T>, c: seq<T>)
    ensures (a + b) + c == a + (b + c)
  {
  }

  lemma SignalsOfFirst(schedule: seq<Step>)
    requires schedule != []
    ensures SignalsOf(schedule) == SignalsOf([schedule[0]]) + SignalsOf(schedule[1..])
  {
    assert [schedule[0]][1..] == [];
  }

  lemma SignalsOfStep(s: State, step: Step)
    requires Remembers(s) && s.halted == None
    ensures Signals(Perform(s, step).events) == Signals(s.events) + SignalsOf([step])
  {
    hide Signals, Remembers, Perform;
    StepRemembers(s, step);
    assert [step][1..] == [];
    if Recorded(s, step) == [] {
      assert s.events + [] == s.events;
    } else {
      SignalsAppend(s.events, Recorded(s, step)[0]);
    }
  }

  lemma {:induction false} HaltedStays(s: State, schedule: seq<Step>)
    ensures s.halted.Some? ==> Run(s, schedule) == s
    decreases |schedule|
  {
    if schedule == [] {
    } else {
      HaltedStays(Perform(s, schedule[0]), schedule[1..]);
    }
  }

  /** A schedule of `|faults|` rounds in which a fault is raised and `nukiTask` comes to see it. */
  function Rounds(faults: seq<Fault>): seq<Step> {
    if faults == [] then [] else [RaiseFault(faults[0]), NukiLoop] + Rounds(faults[1..])
  }

  lemma {:induction false} RoundsCount(s: State, faults: seq<Fault>)
    requires Remembers(s) && s.halted == None && s.nukiPc == Between
    requires faults != [] && s.attempts + |faults| == 5 && NoFault !in faults
    ensures Run(s, Rounds(faults)).halted ==
      Some(if faults[|faults| - 1] == DisconnectError then BLEError else BLEBeaconWatchdog)
    decreases |faults|
  {
    hide Remembers;
    var f := faults[0];
    assert f in faults;
    var raised := Perform(s, RaiseFault(f));
    StepRemembers(s, RaiseFault(f));
    var t := Perform(raised, NukiLoop);
    StepRemembers(raised, NukiLoop);
    var rounds := Rounds(faults);
    assert rounds[1..][0] == NukiLoop && rounds[1..][1..] == Rounds(faults[1..]);
    assert Run(s, rounds) == Run(t, Rounds(faults[1..]));
    if |faults| == 1 {
      HaltedStays(t, Rounds(faults[1..]));
    } else {
      RoundsCount(t, faults[1..]);
    }
  }

  /** Faults escalate: whichever five come without a connection between them, the fifth restarts the ESP. */
  lemma FiveFaultsRestart(faults: seq<Fault>)
    requires |faults| == 5 && NoFault !in faults
    ensures Run(INITIAL, Rounds(faults)).halted == Some(if faults[4] == DisconnectError then BLEError else BLEBeaconWatchdog)
  {
    RoundsCount(INITIAL, faults);
  }

  // ----- bounds on every history

  /** Asked for from outside, not an answer of `nukiTask`. */
  predicate External(e: Event) {
    e == Connected || e.Faulted? || e == RestartServed
  }

  predicate EndsInRestart(events: seq<Event>) {
    events != [] && events[|events| - 1].EspRestarted?
  }

  /** Every answer in the history is the right one, and nothing follows a restart of the ESP. */
  ghost predicate Answered(events: seq<Event>) {
    events != [] ==>
      var init, e := events[..|events| - 1], events[|events| - 1];
      Answered(init) && !EndsInRestart(init) && SinceConnection(events) <= 4 && (External(e) || Response(init) == [e])
  }

  ghost predicate Escalates(s: State) {
    Remembers(s) && Answered(s.events)
  }

  lemma AppendAnswered(events: seq<Event>, e: Event)
    requires Answered(events) && !EndsInRestart(events) && (External(e) || Response(events) == [e])
    requires SinceConnection(events + [e]) <= 4
    ensures Answered(events + [e])
  {
    assert (events + [e])[..|events|] == events;
  }

  lemma {:induction false} PrefixAnswered(events: seq<Event>, j: nat)
    requires Answered(events) && j <= |events|
    ensures Answered(events[..j]) && SinceConnection(events[..j]) <= 4
    ensures j < |events| ==> External(events[j]) || Response(events[..j]) == [events[j]]
    decreases |events|
  {
    if j == |events| {
      assert events[..j] == events;
    } else {
      var init := events[..|events| - 1];
      assert events[..j] == init[..j];
      PrefixAnswered(init, j);
    }
  }

  lemma AppendEscalates(s: State, step: Step)
    requires Escalates(s) && s.halted == None && Recorded(s, step) != []
    ensures Escalates(Perform(s, step))
  {
    assert !EndsInRestart(s.events);
    hide SinceConnection, HasConnected, PendingFault, Response, Perform, Answered, External;
    StepRemembers(s, step);
    RecordedOnce(s, step);
    AppendAnswered(s.events, Recorded(s, step)[0]);
  }

  lemma RecordedOnce(s: State, step: Step)
    ensures |Recorded(s, step)| <= 1
    ensures Recorded(s, step) != [] ==> var e := Recorded(s, step)[0];
      Recorded(s, step) == [e] && (External(e) || Response(s.events) == [e])
  {
  }

  lemma {:induction false} RunEscalates(s: State, schedule: seq<Step>)
    requires Escalates(s)
    ensures Escalates(Run(s, schedule))
    decreases |schedule|
  {
    hide Escalates, Perform;
    if schedule == [] {
    } else {
      StepEscalates(s, schedule[0]);
      RunEscalates(Perform(s, schedule[0]), schedule[1..]);
    }
  }

  lemma StepEscalates(s: State, step: Step)
    requires Escalates(s)
    ensures Escalates(Perform(s, step))
  {
    if Recorded(s, step) == [] {
      StepRemembers(s, step);
      assert s.events + [] == s.events;
    } else {
      AppendEscalates(s, step);
    }
  }

  function CountRestarts(events: seq<Event>): nat {
    if events == [] then 0
    else CountRestarts(events[..|events| - 1]) + if events[|events| - 1] == BleRestart then 1 else 0
  }

  lemma {:induction false} WindowBound(events: seq<Event>, i: nat)
    requires i <= |events| && ConnectionSeen !in events[i..]
    ensures CountRestarts(events[i..]) <= SinceConnection(events)
    decreases |events|
  {
    if i == |events| {
    } else {
      var last := |events| - 1;
      assert events[i..][..last - i] == events[..last][i..];
      assert events[i..][last - i] == events[last];
      WindowBound(events[..last], i);
    }
  }

  /** Position `i` holds a connection, and the wrapper has not been rebuilt after it. */
  predicate ConnectedAt(events: seq<Event>, i: nat) {
    i < |events| && events[i] == Connected && BleRestart !in events[i..] && RestartServed !in events[i..]
  }

  lemma ConnectedAtAppend(events: seq<Event>, e: Event, i: nat)
    ensures ConnectedAt(events + [e], i) <==>
      (i == |events| && e == Connected) || (ConnectedAt(events, i) && e != BleRestart && e != RestartServed)
  {
    if i < |events| {
      assert (events + [e])[i..] == events[i..] + [e];
    } else if i == |events| {
      assert (events + [e])[i..] == [e];
    }
  }

  lemma {:induction false} HasConnectedMeaning(events: seq<Event>)
    ensures HasConnected(events) <==> exists i: nat :: ConnectedAt(events, i)
    decreases |events|
  {
    if events == [] {
    } else {
      var init, e := events[..|events| - 1], events[|events| - 1];
      assert init + [e] == events;
      HasConnectedMeaning(init);
      hide ConnectedAt;
      forall i: nat
        ensures ConnectedAt(events, i) <==>
          (i == |init| && e == Connected) || (ConnectedAt(init, i) && e != BleRestart && e != RestartServed)
      {
        ConnectedAtAppend(init, e, i);
      }
      assert e == Connected ==> ConnectedAt(events, |init|);
      if i: nat :| ConnectedAt(init, i) {
        assert ConnectedAt(events, i) <==> e != BleRestart && e != RestartServed;
      }
    }
  }

  /**
   * In every run the attempt counter stays within 0..4; no stretch of events without a seen connection
   * holds more than four BLE restarts; a connection is seen only if the device has connected since the last
   * BLE restart; and an ESP restart comes exactly after four BLE restarts, for the fault then pending.
   */
  lemma RestartEscalation(schedule: seq<Step>, i: nat, j: nat)
    requires i <= j <= |Run(INITIAL, schedule).events|
    ensures var s := Run(INITIAL, schedule);
      && s.attempts <= 4
      && (ConnectionSeen !in s.events[i..j] ==> CountRestarts(s.events[i..j]) <= 4)
      && (j < |s.events| && s.events[j] == ConnectionSeen ==>
            exists k: nat :: ConnectedAt(s.events[..j], k))
      && (s.halted == Some(BLEError) ==> s.fault == DisconnectError && SinceConnection(s.events) == 4)
      && (s.halted == Some(BLEBeaconWatchdog) ==> s.fault == BeaconWatchdog && SinceConnection(s.events) == 4)
  {
    hide Perform;
    assert INITIAL.events == [];
    RunEscalates(INITIAL, schedule);
    var s := Run(INITIAL, schedule);
    hide Run;
    if ConnectionSeen !in s.events[i..j] { AttemptWindow(s, i, j); }
    if j < |s.events| && s.events[j] == ConnectionSeen { SeenIsConnected(s, j); }
    HaltReason(s);
  }

  lemma AttemptWindow(s: State, i: nat, j: nat)
    requires Escalates(s) && i <= j <= |s.events| && ConnectionSeen !in s.events[i..j]
    ensures CountRestarts(s.events[i..j]) <= 4
  {
    assert s.events[..j][i..] == s.events[i..j];
    PrefixAnswered(s.events, j);
    WindowBound(s.events[..j], i);
  }

  lemma SeenIsConnected(s: State, j: nat)
    requires Escalates(s) && j < |s.events| && s.events[j] == ConnectionSeen
    ensures exists k: nat :: ConnectedAt(s.events[..j], k)
  {
    hide SinceConnection, HasConnected, PendingFault, ConnectedAt;
    PrefixAnswered(s.events, j);
    HasConnectedMeaning(s.events[..j]);
  }

  lemma HaltReason(s: State)
    requires Escalates(s)
    ensures s.halted == Some(BLEError) ==> s.fault == DisconnectError && SinceConnection(s.events) == 4
    ensures s.halted == Some(BLEBeaconWatchdog) ==> s.fault == BeaconWatchdog && SinceConnection(s.events) == 4
  {
    if s.halted.Some? {
      hide SinceConnection, HasConnected, PendingFault;
      var last := |s.events| - 1;
      PrefixAnswered(s.events, last);
      AfterEvent(s.events[..last], s.events[last]);
      assert s.events[..last] + [s.events[last]] == s.events;
    }
  }

  /** Without a connection in the schedule none is ever seen, and the counter counts every BLE restart. */
  lemma NoConnectionNoReset(schedule: seq<Step>)
    requires Connect !in schedule
    ensures var s := Run(INITIAL, schedule);
      Connected !in s.events && ConnectionSeen !in s.events && s.attempts == CountRestarts(s.events)
  {
    NeverConnected(INITIAL, schedule);
    RunRemembers(INITIAL, schedule);
  }

  lemma NothingSeen(s: State, step: Step)
    requires step != Connect && Connected !in s.events
    ensures Connected !in Recorded(s, step) && ConnectionSeen !in Recorded(s, step)
  {
    hide SinceConnection, HasConnected, PendingFault;
    HasConnectedMeaning(s.events);
  }

  /** No connection so far, so the counter has never been reset. */
  ghost predicate Unconnected(events: seq<Event>) {
    Connected !in events && ConnectionSeen !in events && SinceConnection(events) == CountRestarts(events)
  }

  lemma AppendUnconnected(events: seq<Event>, e: Event)
    requires Unconnected(events) && e != Connected && e != ConnectionSeen
    ensures Unconnected(events + [e])
  {
    AfterEvent(events, e);
    assert (events + [e])[..|events|] == events;
  }

  lemma {:induction false} NeverConnected(s: State, schedule: seq<Step>)
    requires Remembers(s) && Unconnected(s.events) && Connect !in schedule
    ensures Unconnected(Run(s, schedule).events)
    decreases |schedule|
  {
    hide Perform, Remembers, Recorded;
    if schedule == [] {
    } else {
      var step := schedule[0];
      StepRemembers(s, step);
      RecordedOnce(s, step);
      NothingSeen(s, step);
      hide Unconnected;
      if Recorded(s, step) == [] {
        assert s.events + [] == s.events;
      } else {
        AppendUnconnected(s.events, Recorded(s, step)[0]);
      }
      NeverConnected(Perform(s, step), schedule[1..]);
    }
  }
}
