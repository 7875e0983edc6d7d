# Nuki REST bridge: verified model

A Dafny model of the stateful and arithmetic parts of an ESP32 bridge that exposes a Nuki smart lock over
a REST API, with proofs of what those parts promise. `dafny verify dfyconfig.toml` checks everything.

| file | what it models |
|---|---|
| `Integers.dfy`, `Euclid.dfy`, `KeypadCipher.dfy` | the affine cipher for keypad codes: both Euclidean loops, 32- and 64-bit arithmetic with its wrap-arounds, and the configuration gate in front of the parameters |
| `AuthUtils.dfy` | the comparison that ORs byte differences and never exits early |
| `LoginTracker.dfy`, `LoginRuns.dfy` | brute-force protection: eight slots updated in place against an unbounded table of accounts |
| `SessionStore.dfy`, `SessionRuns.dfy` | web sessions: expiry, eviction at the cap, lookup, runs of logins and logouts |
| `NetworkSupervisor.dfy`, `SupervisorRuns.dfy` | the supervisor of the REST server and the home-automation client: checks, restarts, retests, watchdogs |
| `Tasks.dfy` | two FreeRTOS tasks interleaved: the reboot flag, and the escalation from BLE restarts to an ESP restart |
| `LockActions.dfy` | a lock action from the REST request through the one-slot queue to the retries on the device, with the restarts that empty the queue |
| `PingStatistics.dfy` | incremental mean and variance over the reals, and the verdict of a ping |
| `SsidList.dfy` | merging a Wi-Fi scan into the list of known networks |
| `Options.dfy`, `Sets.dfy` | an option type and two facts about set sizes |

Objects whose methods change their fields are classes; every such method is proved against a function on
the object's value (`Step`, `LoginStep`, `Prune`, `Handle`, `Perform`), and the theorems about whole runs
are lemmas about those functions. What comes from outside (clock readings, reachability, allocation
results, cookies, device answers, the schedule of the two tasks) is an argument, so each theorem holds for
every choice of it.

Where the code and its own documentation differ, the model follows the code:

- The header of the tracker promises that an expired lockout is evicted first. The scan does so only under
  a condition, which `LoginRuns.ExpiredLockoutPreferredExactly` states and `LoginRuns.ExpiredLockoutNotPreferred`
  shows to fail.
- Decryption is documented as the inverse of encryption. In 32 bits that holds exactly when the net
  wrap-around is a multiple of the modulus (`KeypadCipher.RoundTripExactly`); `KeypadCipher.WrappedCodeIsLost`
  is a code lost with parameters the gate accepts.
- The documented bounds exclude `modulus - 1` for offset and multiplier and 2147483647 for the modulus; the
  gate accepts all three. The documented default modulus is 100001; the lock side uses 1000000.
- A change of the modulus does not look at the stored multiplier and offset, and an offset is not bounded
  while no modulus is stored, so decryption can stop working after requests that are all accepted.
  `KeypadCipher.DecryptsExactly` and `KeypadCipher.EveryCodeSurvivesExactly` say when it works, and
  `KeypadCipher.FactoryRunExactly` carries that to every run from the factory state.
- A lock action answered with Success is lost when a BLE fault rebuilds the lock wrapper, and the queue with
  it, before the action is received (`LockActions.DroppedIffRestartedFirst`).
- The reboot flag is a plain boolean written by both tasks: a request is delivered at most once and can be
  lost in three ways; `Tasks.DeliveredIffReadFirst` says of every accepted request which of these happens and when
  it is delivered.

## Model

| member | source | states |
|---|---|---|
| `Euclid.ModInverse` | src/util/CryptoUtils.h:21-38 | for all 32-bit arguments it terminates with the inverse in `[1, m-1]` if the arguments are coprime (a notion defined by common divisors alone) and `m > 1`, and with 0 otherwise |
| `Euclid.Round` | src/util/CryptoUtils.h:28-33 | the loop body fits 64 signed bits at every intermediate and keeps the Bezout invariant |
| `Euclid.BezoutRound` | src/util/CryptoUtils.h:28-33 | gcd, both linear combinations, alternating signs and the weighted sum of the coefficients survive a round, and the products stay below the modulus |
| `Euclid.InverseOrZeroDetermined` | src/util/CryptoUtils.h:15-21 | the answer is determined by the arguments and non-zero exactly when some inverse exists |
| `Euclid.At32BitsAtMost47Rounds` | src/util/CryptoUtils.h:12-20 | the promised logarithmic run time as a bound: at most 47 rounds on 32-bit inputs |
| `Euclid.FibonacciBound` | src/util/CryptoUtils.h:12-20 | operands that take n rounds are at least the (n+1)-st and (n+2)-nd Fibonacci number |
| `Euclid.GetGCD` | src/WebCfgServer.cpp:3088-3097 | the divisors of the result are exactly the common divisors; 1 exactly for coprime arguments; as many rounds as `ModInverse` |
| `KeypadCipher.RoundTripExactly` | src/util/CryptoUtils.h:47-117 | decrypting an encrypted code gives the code modulo the modulus if and only if what the 32-bit operations dropped is a multiple of the modulus |
| `KeypadCipher.RoundTrip` | src/util/CryptoUtils.h:40-117 | without a wrap the result lies in `[m, 2m)`, equals the documented formula, and decrypts to the code reduced, which is the code itself iff it is below the modulus |
| `KeypadCipher.WrappedCodeIsLost` | src/util/CryptoUtils.h:47-53 | a code and accepted parameters for which decryption returns another code |
| `KeypadCipher.DecryptEncrypt` | README.md:545-557 | over the integers, decryption inverts encryption below the modulus and the cipher text is at least the modulus |
| `KeypadCipher.EncryptDecrypt` | README.md:545-557 | over the integers, encryption inverts decryption on `[m, 2m)`, so both maps are bijections |
| `KeypadCipher.KeypadPreferences.ProcessArg` | src/WebCfgServer.cpp:3971-4014 | each branch reports a change iff its value is new and in its range (100001 to 2147483647; 1 to modulus - 1, unbounded while none is stored; 2 to modulus - 1 and coprime), then stores exactly that preference, and otherwise leaves all three |
| `KeypadCipher.GateMeaning` | src/WebCfgServer.cpp:3971-4014 | the same three conditions for every stored state: with no modulus stored no multiplier is accepted, although every offset is |
| `KeypadCipher.AcceptedMultiplierDecrypts` | src/WebCfgServer.cpp:4000-4014 | an accepted multiplier has a non-zero inverse, with which codes that do not wrap round-trip |
| `KeypadCipher.RunKeepsInvertible` | src/WebCfgServer.cpp:3971-4014 | over any run of requests that leaves the modulus alone an invertible configuration stays invertible |
| `KeypadCipher.ConfiguredRunRoundTrips` | src/NukiWrapper.cpp:155-159 | after such a run and a reload of the settings, codes below the modulus that do not wrap are decrypted to themselves |
| `KeypadCipher.DecryptsExactly` | src/util/CryptoUtils.h:47-117 | for every configuration that can be in force and every code, wrapping ones included: with a coprime multiplier a code is decrypted iff it is below the modulus and what the 32-bit operations drop is a multiple of the modulus; without one iff it is 0 |
| `KeypadCipher.FittingCodeCondition` | src/util/CryptoUtils.h:47-61 | for a code whose product does not wrap that condition says that the cipher text is not below the offset or the modulus divides 2^32 |
| `KeypadCipher.EveryCodeSurvivesExactly` | src/util/CryptoUtils.h:47-117 | for every configuration that can be in force all codes are decrypted iff the multiplier is coprime and either the modulus divides 2^32 or no product wraps and the offset is at most the modulus; wrap-arounds never make up for one another |
| `KeypadCipher.ModulusChangeExactly` | src/WebCfgServer.cpp:3971-3984 | which codes survive an accepted change of the modulus, and the condition on the parameters under which all do, whatever was stored or defaulted before |
| `KeypadCipher.FactoryRunExactly` | src/WebCfgServer.cpp:3971-4014 | after any run of requests from the factory state and a reload: which codes survive, and the condition on the parameters under which all do |
| `KeypadCipher.FactoryOffsetLosesCodes` | src/WebCfgServer.cpp:3985-3999 | one accepted request on a factory device after which no code survives |
| `KeypadCipher.ModulusChangeLosesInverse` | src/WebCfgServer.cpp:3971-3984 | a run of accepted requests after which every cipher text decrypts to 0 |
| `KeypadCipher.DefaultsRoundTrip` | src/NukiWrapper.cpp:155-159 | the defaults of the lock side are invertible and round-trip every code |
| `KeypadCipher.CipherSettings.constructor` | src/NukiWrapper.cpp:155-159 | reloading the settings takes defaults for missing values and stores the matching inverse |
| `KeypadCipher.CipherSettings.Decrypt` | src/NukiWrapper.cpp:3487-3500 | 0 whenever the parameters are not coprime; the reduced code for what was encrypted without a wrap |
| `AuthUtils.ConstTimeStrEqual` | src/util/AuthUtils.h:27-42 | true exactly for equal NUL-free strings of any length below 2^32 |
| `AuthUtils.PaddingSeparatesLengths` | src/util/AuthUtils.h:35-40 | strings of different lengths differ at some position once padded with zero bytes |
| `LoginTracker.Tracker.ProcessLogin` | src/WebCfgServer.cpp:4529-4629 | the answer is yes iff no slot of the address is locked and user name and password equal the stored ones, neither of them empty; the in-place slots are those of `LoginStep` and stay valid |
| `LoginTracker.AcceptedExactly` | src/WebCfgServer.cpp:4557-4584 | the same condition for `LoginStep`: not locked out, and both credentials equal to the stored, non-empty ones |
| `LoginTracker.Tracker.FindSlot` | src/WebCfgServer.cpp:4535-4555 | the scan ends at the slot of the address, else the first free one, else the eviction candidate |
| `LoginTracker.SlotsAfterAttempt` | src/WebCfgServer.cpp:4529-4629 | an attempt changes at most one slot, that of the address, else the first free one, else the candidate: it is freed on acceptance, and on refusal counts one failure more and is locked for 30000 ms at the fifth; a locked address changes nothing |
| `LoginTracker.StepKeepsValid` | src/WebCfgServer.cpp:4540-4628 | addresses stay distinct, counts at most 5, and a count of 5 goes with a lockout time |
| `LoginTracker.StepRefinesTable` | src/WebCfgServer.cpp:4540-4628 | a step is exactly the step of an unbounded table that has first forgotten the evicted address |
| `LoginRuns.EightSlotsSuffice` | src/WebCfgServer.cpp:4529-4629 | in any run involving at most eight addresses every attempt gets the answer of the unbounded table |
| `LoginRuns.NobodyEvicted` | src/WebCfgServer.cpp:4549-4555 | in such a run every address keeps its slot, so the results about addresses that do apply to all of them |
| `LoginRuns.DepartsExactlyOnNinth` | src/WebCfgServer.cpp:4549-4555 | a step departs from the unbounded table iff all slots are taken and the address holds none |
| `LoginRuns.ResidentAgrees` | src/WebCfgServer.cpp:4529-4629 | with any number of clients, an address that keeps its slot is answered as if it were alone |
| `LoginRuns.CandidateMeaning` | src/WebCfgServer.cpp:4540-4547 | the candidate is the first slot of least count from the last expired lockout on |
| `LoginRuns.UnexpiredLockoutEvictedLast` | src/WebCfgServer.cpp:4540-4555 | a lockout still in force is evicted only when all eight slots hold one |
| `LoginRuns.ExpiredLockoutPreferredExactly` | src/WebCfgServer.h:602-606 | an expired lockout is the one evicted iff every slot behind the last expired one is locked |
| `LoginRuns.ExpiredLockoutNotPreferred` | src/WebCfgServer.h:602-606 | a run from an empty tracker after which a client with one failure is evicted although the lockout in slot 0 has expired |
| `LoginRuns.LockedAttemptChangesNothing` | src/WebCfgServer.cpp:4557-4563 | an attempt of a locked address fails and leaves all slots as they are, whatever its credentials |
| `LoginRuns.FiveFailuresLockOut` | src/WebCfgServer.cpp:4557-4628 | five failures lock for thirty seconds from the fifth, everything before the expiry is refused, and the next failure counts as the first |
| `LoginRuns.GuessRate` | src/WebCfgServer.cpp:4557-4628 | over any run an address gets at most five wrong guesses per thirty seconds, plus five, to the comparison |
| `SessionStore.Store.PruneExpiredSessions` | src/WebCfgServer.cpp:4940-4975 | for any object with distinct keys it terminates with `Prune` of the old store |
| `SessionStore.Store.HasActiveSession` | src/WebCfgServer.cpp:4926-4938 | true iff some cookie would be authenticated now |
| `SessionStore.Store.OpenSession` | src/WebCfgServer.cpp:4602-4607 | prune first, then store the new cookie |
| `SessionRuns.PruneMeaning` | src/WebCfgServer.cpp:4940-4975 | at most seven sessions remain, unexpired, unaltered and in order, and what is dropped beyond the expired ones expires before all that is kept |
| `SessionRuns.CapReachedExactly` | src/WebCfgServer.cpp:4956-4974 | for any store, eviction gets below eight iff every session of the surplus has a key and an expiry below INT64_MAX |
| `SessionRuns.LoginMeaning` | src/WebCfgServer.cpp:4602-4607 | after a login at most eight sessions exist and the new cookie is accepted exactly until its expiry |
| `SessionRuns.LoginAddsNoOther` | src/WebCfgServer.cpp:4605-4606 | a login makes no other cookie valid |
| `SessionRuns.LoginSparesOthers` | src/WebCfgServer.cpp:4605-4606 | a login invalidates another cookie only if seven sessions that live at least as long are kept |
| `SessionRuns.AuthenticateMeaning` | src/WebCfgServer.cpp:126-136 | a cookie is accepted iff the store holds it with an expiry in the future, expired iff it holds it with another, and invalid iff it does not hold it |
| `SessionRuns.EvictionExactly` | src/WebCfgServer.cpp:4956-4974 | eviction keeps a session iff fewer than seven others outlive it, ties going by position |
| `SessionRuns.NeverMoreThanEight` | src/WebCfgServer.cpp:4920-4990 | the cap survives every run of logins, logouts and clearings |
| `SessionRuns.SessionSurvivesExactly` | src/WebCfgServer.cpp:4926-4990 | over every run of logins with other cookies, logouts and clearings a session survives iff it is neither logged out nor cleared away and at every login it is unexpired and fewer than seven unexpired sessions outlive it; its cookie is accepted exactly until its expiry if it survives and never if not |
| `SessionRuns.SessionSurvives` | src/WebCfgServer.cpp:4926-4975 | with at most eight cookies in play and the store never cleared, a session is accepted until it expires, whatever logins and logouts of others come between |
| `NetworkSupervisor.HarClient.Test` | src/HarClient.cpp:83-151 | a disabled client passes; an enabled one needs its transport, a reachable address and a successful GET as configured; an unknown mode fails |
| `SupervisorRuns.HarTestFails` | src/HarClient.cpp:83-146 | each cause for which the test of an enabled client fails, by mode; a disabled client never fails |
| `NetworkSupervisor.HarClient.Restart` | src/HarClient.cpp:153-199 | the transport is recreated and a success marks the client healthy before any retest |
| `NetworkSupervisor.RestApiServer.Test` | src/RestApiServer.cpp:83-120 | a disabled server passes; an enabled one needs an instance and a valid address |
| `NetworkSupervisor.RestApiServer.Restart` | src/RestApiServer.cpp:122-156 | the server is recreated and a success marks it healthy before any retest |
| `NetworkSupervisor.NukiNetwork.Initialize` | src/NukiNetwork.cpp:147-148 | both services are started as configured and tested once |
| `SupervisorRuns.InitializeMeaning` | src/NukiNetwork.cpp:147-148 | which transports exist after it and that both flags and the stored state tell what the test found |
| `NetworkSupervisor.NukiNetwork.TestNetworkServices` | src/NukiNetwork.cpp:490-502 | both flags are set from the tests and the result encodes them |
| `NetworkSupervisor.NukiNetwork.RestartNetworkServices` | src/NukiNetwork.cpp:504-541 | the enabled services named by the status are restarted; UNKNOWN tests first without storing the result |
| `NetworkSupervisor.NukiNetwork.ApplyWebChange` | src/NukiNetwork.cpp:465-477 | saving the web form rereads the two watchdog settings, a missing timeout switching the watchdog off, and disables the services it should |
| `SupervisorRuns.SettingsAreLastSaved` | src/NukiNetwork.cpp:465-477 | in every run the settings in force are those saved last |
| `SupervisorRuns.DisabledStaysDisabled` | src/NukiNetwork.cpp:351-358 | in every run a service the web form disables is off from then on, the REST server stopped |
| `NetworkSupervisor.NukiNetwork.Update` | src/NukiNetwork.cpp:165-287 | one update is one `Step` of the state machine, whose stages and restarts the next rows describe; the tests and restarts it really calls are those its events report, and its return value says whether the watchdog section ran |
| `SupervisorRuns.StagesExactly` | src/NukiNetwork.cpp:180-242 | retest, health check and watchdog section are reached exactly when the network is not disabled, some service is enabled, no access point is open, the device is connected, no served request restarts the ESP and the stage is due; otherwise nothing changes |
| `SupervisorRuns.EspRestartsExactly` | src/NukiNetwork.cpp:193-258 | the exact condition of every restart of the ESP by an update other than the service timeout, with its reason |
| `SupervisorRuns.WatchdogMeaning` | src/NukiNetwork.cpp:267-284 | the watchdog notes a success or fires, and when it fires it forces the web server on unless that is enabled |
| `SupervisorRuns.ServeMeaning` | src/RestApiServer.cpp:244-384 | a request has its effect iff the server is enabled, present and healthy: which service it disables and for which reason it restarts the ESP |
| `SupervisorRuns.RetestMeaning` | src/NukiNetwork.cpp:214-218 | a retest that is due renews both flags and the stored state from new tests and is no longer pending; before that nothing changes |
| `SupervisorRuns.HealthAgreement` | src/NukiNetwork.cpp:215-242 | in every state after `initialize()` with no retest pending, the two flags say what the stored state says |
| `SupervisorRuns.RestartsHitFailures` | src/NukiNetwork.cpp:229-242 | a check restarts exactly the services that fail its test, all enabled, leaves the transport of the others alone, and masks the failure until the retest |
| `SupervisorRuns.ReconnectAgreesExactly` | src/NukiNetwork.cpp:509-512 | a reconnect (dormant: it has no caller) leaves flags and state in agreement iff its outcome repeats the stored state |
| `SupervisorRuns.ReconnectBreaksAgreement` | src/NukiNetwork.cpp:509-539 | called right after `initialize()` with an unreachable server, it would recreate the client and mark it healthy against the stored error |
| `SupervisorRuns.RestartsApart` | src/NukiNetwork.cpp:229-242 | any two service restarts of any run are more than 30000 ms apart |
| `SupervisorRuns.ChecksExactlyWhenDue` | src/NukiNetwork.cpp:224-242 | an update that reaches the watchdog checks the services exactly when the last check is more than 30000 ms old |
| `SupervisorRuns.RetestsAnswerRestarts` | src/NukiNetwork.cpp:215-241 | every retest answers a restart at least 1000 ms earlier, and no restart is answered twice |
| `SupervisorRuns.WatchdogExactly` | src/NukiNetwork.cpp:267-284 | with settings saved and services disabled at any time, the timeout restart fires iff the timeout saved last is positive, a minute has passed since boot, the state is not OK and no update within that timeout saw OK |
| `Tasks.Firmware.NukiLoopBody` | src/main.cpp:374-407 | the fault check, the escalation and the call of `update` change the shared state as `Perform` says, which `FaultsAnsweredExactly` describes |
| `Tasks.Firmware.NetworkStep` | src/main.cpp:494-500 | accepting, consuming and storing the reboot request, as separate atomic steps |
| `Tasks.Firmware.Execute` | src/main.cpp:338-517 | any schedule of atomic steps, with at-most-once delivery and the counter bound at its end |
| `Tasks.RebootAtMostOnce` | src/RestApiServer.cpp:231-236 | over every interleaving the calls of `update(true)` are exactly as many as the accepted requests that count as delivered, and each place on the way holds at most one request, the one its variable stands for |
| `Tasks.DeliveredIffReadFirst` | src/main.cpp:404-405 | for every accepted request in every schedule, whatever others are accepted: merged iff another one was still pending; otherwise, once consumed and stored, delivered, overwritten or erased iff the first of call, store and clearing after that is that one |
| `Tasks.UndisturbedIsDelivered` | src/main.cpp:390-500 | from every reachable state between two turns without a fault, accept, consume, store and loop call `update(true)` once more |
| `Tasks.RebootCanBeOverwritten` | src/main.cpp:496-499 | a schedule in which the next network loop overwrites an accepted request |
| `Tasks.RebootCanBeErased` | src/main.cpp:404-405 | a schedule in which the clearing after `update` erases an accepted request |
| `Tasks.RestartEscalation` | src/main.cpp:374-402 | in every run the counter stays within 4, at most four BLE restarts fall between seen connections, a connection is seen only if one came after the last BLE restart, and the ESP restarts after exactly four, with the reason of the fault pending then |
| `Tasks.FaultsAnsweredExactly` | src/main.cpp:374-402 | after every schedule, what the next turn of `nukiTask` does is determined by the history of faults and connections: BLE restart, restart of the ESP with which reason, reset of the counter, or nothing |
| `Tasks.SignalsRecorded` | src/main.cpp:374-402 | that history holds the faults and connections of the schedule, all and in order |
| `Tasks.FiveFaultsRestart` | src/main.cpp:376-393 | any five faults without a connection between them restart the ESP at the fifth, for BLEError or BLEBeaconWatchdog according to it |
| `Tasks.NoConnectionNoReset` | src/main.cpp:399-402 | in every schedule without a connection the counter counts every BLE restart and is never reset |
| `LockActions.NukiRetryHandler.RetryComm` | src/util/NukiRetryHandler.cpp:11-41 | between 1 and n+1 calls, none after a success, and success iff one of the next n+1 device answers is one; no call for negative n |
| `LockActions.NukiWrapper.OnLockActionReceived` | src/NukiWrapper.cpp:1129-1168 | slot and answer are those of `Answer`, for a missing, empty, unknown, forbidden, refused or accepted action |
| `LockActions.NukiWrapper.ConsumeLockAction` | src/NukiWrapper.cpp:297-334 | the pending action is taken and driven through a complete series of calls, or nothing happens |
| `LockActions.QueuedExactly` | src/NukiWrapper.cpp:1083-1168 | for each of the nine actions, an empty slot takes it iff the value is one of its two spellings and its entry of the access list is 1 |
| `LockActions.RefusedExactly` | src/NukiWrapper.cpp:1125-1168 | the other answers by the same table: unknown iff the value names no action, denied iff it names one that an empty slot would not take, busy iff the slot is full; none of them touches the slot |
| `LockActions.AnswerMeaning` | src/NukiWrapper.cpp:1125-1168 | what each answer does to the state of the interleaving: an accepted action is in the slot and recorded with its access list, a refused one leaves everything |
| `LockActions.LockTask.RestartServices` | src/main.cpp:272-323 | a BLE fault replaces the wrapper by one with an empty queue |
| `LockActions.ActionsSettledInOrder` | src/NukiWrapper.cpp:297-334 | over every interleaving, restarts included, the accepted actions are those that left the slot, in order, plus at most one in it; each was permitted when accepted; each executed one took 1 to n+1 calls |
| `LockActions.DroppedIffRestartedFirst` | src/NukiWrapper.cpp:48-55 | in every schedule, every accepted action is dropped iff a restart precedes the next receive, reaches the device iff the receive comes first, and waits otherwise |
| `LockActions.AcceptedActionCanBeDropped` | src/NukiWrapper.cpp:48-55 | a schedule in which an action answered with Success never reaches the device |
| `PingStatistics.Statistics.OnReply` | lib/ESP32Ping/ping.cpp:191-217 | a reply keeps the running numbers the exact statistics of all replies |
| `PingStatistics.UpdateIsExact` | lib/ESP32Ping/ping.cpp:213-217 | the incremental variance update gives the exact sum of squared deviations from the new mean |
| `PingStatistics.MeanBetweenExtremes` | lib/ESP32Ping/ping.cpp:200-217 | minimum, exact mean and maximum are in order and the variance is the exact non-negative sum |
| `PingStatistics.Ping` | lib/ESP32Ping/ping.cpp:310-353 | received <= sent <= requested, and the verdict is true iff some echo was answered or could not be sent |
| `SsidList.WifiList.CreateSsidList` | src/WebCfgServer.cpp:4790-4827 | the lists stay parallel and duplicate-free, old names stay a prefix, scanned names get their best clamped quality and the others keep theirs |
| `SsidList.QualityScale` | src/WebCfgServer.cpp:4798 | the quality rises from 0 at -100 dBm by two points per dBm to 100 at -50 dBm and stays at the ends |

## Left out

- HTML, forms and the rest of the configuration handler: field-by-field assignments.
- Wi-Fi, Ethernet, BLE, HTTP, UDP and file-system drivers and the preference store: foreign code, here arguments or plain fields.
- Logger, settings import and export, and the validation ladders of the configuration, time-control and authorization commands: branches settled one at a time.
- Mapping random bytes to the characters of an API token: one pass over a fixed buffer.
- Timing side channels and the quality of random numbers: cookies are arbitrary strings.
- KeypadCipher.EncryptKeypadCode: requires a non-zero modulus, because the source divides by it and every stored or default modulus is positive.
- LoginTracker.Tracker.ProcessLogin: addresses have 1 to 15 characters, the size of the slot's field; credentials with embedded NUL bytes are not modelled; the session it opens is `OpenSession`.
- SessionStore.Store.OpenSession: computing the cookie and the expiry from the configured lifetimes is left to the caller.
- SessionRuns.AuthenticateMeaning: parsing the cookie header is not modelled.
- NetworkSupervisor.NukiNetwork.ApplyWebChange: what the web task changes takes effect between two updates, not in the middle of one, and the other settings of the form have no effect before a reboot.
- SessionRuns.SessionSurvivesExactly: no login of the run brings the cookie of the session again, because cookies are 128 random bits; stores reloaded from a file are not part of the run.
- NetworkSupervisor.NukiNetwork.Update: waiting periods and the sending of reports, which do not touch the supervised state, are not modelled.
- Tasks.Firmware.Execute: the step `RestartRequest` over-approximates: `requestServiceRestart` has no caller, so only schedules without it can occur at present.
- LockActions.DroppedIffRestartedFirst: a request served while the wrapper is being rebuilt uses a deleted object and is not a step of the model; neither are the wrapper's own `lock()` and `unlock()`, which have no caller.
- Tasks.RebootAtMostOnce: stops at the call `update(true)`; whether the lock is then asked to reboot also depends on pairing, the PIN and the network state.
- LockActions.NukiRetryHandler.RetryComm: the delay between retries, and a retry count of 2147483647, for which the loop bound overflows, are not modelled.
- PingStatistics.Statistics.OnReply: floats are reals, and elapsed times are at most 10^9 ms, the value the minimum starts from.
- PingStatistics.Ping: a failing allocation, on which the loop of the original does not advance, is not modelled.
