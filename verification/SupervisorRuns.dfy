/** What the network supervisor guarantees over whole runs of `update()`. */
module SupervisorRuns {
  import opened Integers
  import opened Options
  import opened NetworkSupervisor

  /** One turn of a run: when its `update()` ran, what it did, and the state it left. */
  datatype Record = Record(ts: Millis, events: Events, after: NetState)

  /** A run ends with the first restart of the ESP. */
  function Trace(s: NetState, envs: seq<Environment>): (t: seq<Record>)
    ensures |t| <= |envs|
    decreases |envs|
  {
    if envs == [] || s.halted.Some? then []
    else
      var (s', events) := Turn(s, envs[0]);
      [Record(envs[0].ts, events, s')] + Trace(s', envs[1..])
  }

  function After(s: NetState, envs: seq<Environment>): NetState
    decreases |envs|
  {
    if envs == [] || s.halted.Some? then s else After(Turn(s, envs[0]).0, envs[1..])
  }

  // ----- health flags

  /** The two health flags say what the stored service state says. */
  predicate Agrees(s: NetState) {
    && s.services != UNKNOWN
    && (s.api.isOk <==> !ApiFailed(s.services))
    && (s.har.isOk <==> !HarFailed(s.services))
  }

  lemma TestAgrees(s: NetState, p: Probe)
    ensures Agrees(TestServices(s, p))
  {
  }

  lemma ServeFrame(s: NetState, r: ApiRequest)
    ensures var s' := Serve(s, r);
      && s'.api.isOk == s.api.isOk && s'.har.isOk == s.har.isOk && s'.services == s.services
      && SameClocks(s', s) && SameWatchdog(s', s)
      && (s.halted == None ==> s'.halted != Some(NetworkTimeoutWatchdog))
  {
  }

  /** Checks and retests are scheduled alike in both states. */
  predicate SameClocks(s: NetState, s': NetState) {
    s.retestPending == s'.retestPending && s.retestTs == s'.retestTs && s.lastServiceTs == s'.lastServiceTs
  }

  predicate SameWatchdog(s: NetState, s': NetState) {
    s.lastConnectedTs == s'.lastConnectedTs && s.networkTimeout == s'.networkTimeout
  }

  predicate SameFlags(s: NetState, s': NetState) {
    s.api == s'.api && s.har == s'.har && s.services == s'.services
  }

  lemma RetestKeepsAgreement(s: NetState, env: Environment)
    requires !s.retestPending ==> Agrees(s)
    ensures var s' := Retest(s, env); !s'.retestPending ==> Agrees(s')
  {
    TestAgrees(s.(retestPending := false), env.retestProbe);
  }

  lemma CheckKeepsAgreement(s: NetState, env: Environment)
    requires !s.retestPending ==> Agrees(s)
    ensures var s' := Check(s, env); !s'.retestPending ==> Agrees(s')
  {
    TestAgrees(s.(lastServiceTs := env.ts), env.checkProbe);
  }

  lemma ConfigureFrame(s: NetState)
    ensures var s' := ConfigureWeb(s);
      && SameFlags(s', s) && SameClocks(s', s) && SameWatchdog(s', s)
      && s'.restartOnDisconnect == s.restartOnDisconnect
      && (s.halted == None ==> s'.halted != Some(NetworkTimeoutWatchdog))
  {
  }

  lemma WatchdogFrame(s: NetState, ts: Millis)
    ensures SameFlags(Watchdog(s, ts), s) && SameClocks(Watchdog(s, ts), s)
    ensures SettingsOf(Watchdog(s, ts)) == SettingsOf(s)
    ensures Watchdog(s, ts).lastConnectedTs == (if s.services == OK then ts else s.lastConnectedTs)
    ensures s.halted == None ==>
      (Watchdog(s, ts).halted == Some(NetworkTimeoutWatchdog) <==> s.services != OK && TimedOut(s, ts))
  {
  }

  lemma StepKeepsAgreement(s: NetState, env: Environment)
    requires !s.retestPending ==> Agrees(s)
    ensures var s' := Step(s, env).0; !s'.retestPending ==> Agrees(s')
  {
    var served := Serve(s, env.request);
    ServeFrame(s, env.request);
    RetestKeepsAgreement(served, env);
    var checked := Check(Retest(served, env), env);
    CheckKeepsAgreement(Retest(served, env), env);
    ConfigureFrame(checked);
    WatchdogFrame(ConfigureWeb(checked), env.ts);
  }

  lemma {:induction false} AgreementPersists(s: NetState, envs: seq<Environment>)
    requires !s.retestPending ==> Agrees(s)
    ensures var s' := After(s, envs); !s'.retestPending ==> Agrees(s')
    decreases |envs|
  {
    if envs == [] || s.halted.Some? {
    } else {
      StepKeepsAgreement(Reconfigured(s, envs[0].change), envs[0]);
      AgreementPersists(Turn(s, envs[0]).0, envs[1..]);
    }
  }

  /** From a completed `initialize()`, flags and state agree whenever no retest is pending. */
  lemma HealthAgreement(s: NetState, p: Probe, hasIp: bool, harCreated: bool, apiCreated: bool, envs: seq<Environment>)
    requires !s.retestPending
    ensures var s' := After(Initialized(s, p, hasIp, harCreated, apiCreated), envs);
      !s'.retestPending ==> Agrees(s')
  {
    TestAgrees(s.(har := HarStart(s.har, harCreated), api := ApiStart(s.api, hasIp, apiCreated)), p);
    AgreementPersists(Initialized(s, p, hasIp, harCreated, apiCreated), envs);
  }

  /** `e` and `t` describe a check of `s` that restarts exactly the enabled services failing the test. */
  ghost predicate HitsFailures(s: NetState, p: Probe, env: Environment, t: NetState, e: Events) {
    && (e.harRestarted <==> !HarTest(s.har, p)) && (e.apiRestarted <==> !ApiTest(s.api, p.localIpValid))
    && (e.harRestarted ==> s.har.enabled) && (e.apiRestarted ==> s.api.enabled)
    && (e.restarted <==> e.harRestarted || e.apiRestarted) && (e.restarted <==> t.retestPending)
    && (HarFailed(t.services) <==> e.harRestarted) && (ApiFailed(t.services) <==> e.apiRestarted)
    && (t.api.isOk <==> !e.apiRestarted || env.apiCreated)
    && (t.har.isOk <==> !e.harRestarted || (env.harCreated && 0 <= s.har.mode <= 1))
    && t.har == (if e.harRestarted then HarRestart(s.har.(isOk := false), env.harCreated) else s.har.(isOk := true))
    && t.api == (if e.apiRestarted then ApiRestart(s.api.(isOk := false), env.apiCreated) else s.api.(isOk := true))
  }

  lemma EncodeDecode(apiOk: bool, harOk: bool)
    ensures var services := Encode(apiOk, harOk);
      && (HarFailed(services) <==> !harOk) && (ApiFailed(services) <==> !apiOk)
      && (services == OK <==> apiOk && harOk)
  {
  }

  lemma RestartedHar(h: HarState, p: Probe, created: bool)
    ensures var t := h.(isOk := HarTest(h, p));
      var t' := if t.enabled && !t.isOk then HarRestart(t, created) else t;
      && (!HarTest(h, p) ==> h.enabled)
      && (t'.isOk <==> HarTest(h, p) || (created && 0 <= h.mode <= 1))
  {
  }

  lemma RestartedApi(a: ApiState, ip: bool, created: bool)
    ensures var t := a.(isOk := ApiTest(a, ip));
      var t' := if t.enabled && !t.isOk then ApiRestart(t, created) else t;
      && (!ApiTest(a, ip) ==> a.enabled)
      && (t'.isOk <==> ApiTest(a, ip) || created)
  {
  }

  lemma CheckHitsFailures(s: NetState, env: Environment, retested: bool)
    requires CheckDue(s, env.ts)
    ensures HitsFailures(s, env.checkProbe, env, Check(s, env), CheckEvents(s, env, retested))
  {
    var p := env.checkProbe;
    EncodeDecode(ApiTest(s.api, p.localIpValid), HarTest(s.har, p));
    RestartedHar(s.har, p, env.harCreated);
    RestartedApi(s.api, p.localIpValid, env.apiCreated);
  }

  /**
   * A restart hits exactly the services whose test just failed, each of them enabled. Until the retest
   * a restarted service counts as healthy while the stored state still calls it failed.
   */
  lemma RestartsHitFailures(s: NetState, env: Environment)
    requires s.halted == None && Step(s, env).1.checked
    ensures HitsFailures(Serve(s, env.request), env.checkProbe, env, Step(s, env).0, Step(s, env).1)
  {
    var served, retested := StepChecks(s, env);
    var retestDue := RetestDue(served, env.ts);
    CheckHitsFailures(retested, env, retestDue);
    HitsDependsOnServices(served, retested, env, Check(retested, env), CheckEvents(retested, env, retestDue));
    HitsDependsOnFlags(served, env, Check(retested, env), CheckEvents(retested, env, retestDue),
                       Step(s, env).0, Step(s, env).1);
  }

  /** A step that checks ends as its check does. */
  lemma StepChecks(s: NetState, env: Environment) returns (served: NetState, retested: NetState)
    requires s.halted == None && Step(s, env).1.checked
    ensures served == Serve(s, env.request) && retested == Retest(served, env) && CheckDue(retested, env.ts)
    ensures retested.har == served.har.(isOk := retested.har.isOk)
    ensures retested.api == served.api.(isOk := retested.api.isOk)
    ensures SameFlags(Step(s, env).0, Check(retested, env)) && SameClocks(Step(s, env).0, Check(retested, env))
    ensures var e := CheckEvents(retested, env, RetestDue(served, env.ts));
      Step(s, env).1 == e || Step(s, env).1 == e.(watchdogReached := true)
  {
    served := Serve(s, env.request);
    retested := Retest(served, env);
    RetestKeepsServices(served, env);
    var checked := Check(retested, env);
    ConfigureFrame(checked);
    WatchdogFrame(ConfigureWeb(checked), env.ts);
  }

  lemma HitsDependsOnFlags(s: NetState, env: Environment, t: NetState, e: Events, t': NetState, e': Events)
    requires HitsFailures(s, env.checkProbe, env, t, e)
    requires SameFlags(t', t) && SameClocks(t', t) && (e' == e || e' == e.(watchdogReached := true))
    ensures HitsFailures(s, env.checkProbe, env, t', e')
  {
  }

  lemma HitsDependsOnServices(s: NetState, s': NetState, env: Environment, t: NetState, e: Events)
    requires s'.har == s.har.(isOk := s'.har.isOk) && s'.api == s.api.(isOk := s'.api.isOk)
    requires HitsFailures(s', env.checkProbe, env, t, e)
    ensures HitsFailures(s, env.checkProbe, env, t, e)
  {
  }

  lemma RetestKeepsServices(s: NetState, env: Environment)
    ensures Retest(s, env).har == s.har.(isOk := Retest(s, env).har.isOk)
    ensures Retest(s, env).api == s.api.(isOk := Retest(s, env).api.isOk)
  {
  }

  /**
   * A reconnect tests on its own. It is dormant code: nothing calls `requestServiceRestart`, so no update
   * runs into it. Flags and state agree after one exactly when its outcome repeats the stored state.
   */
  lemma ReconnectAgreesExactly(s: NetState, p: Probe, harCreated: bool, apiCreated: bool)
    requires Agrees(s) && (s.har.enabled || s.api.enabled)
    ensures Agrees(RestartServices(s, UNKNOWN, p, harCreated, apiCreated)) <==>
      && (!ApiFailed(s.services) <==> ApiTest(s.api, p.localIpValid) || apiCreated)
      && (!HarFailed(s.services) <==> HarTest(s.har, p) || (harCreated && 0 <= s.har.mode <= 1))
  {
    EncodeDecode(ApiTest(s.api, p.localIpValid), HarTest(s.har, p));
    RestartedHar(s.har, p, harCreated);
    RestartedApi(s.api, p.localIpValid, apiCreated);
  }

  /** Were it called, it could leave them apart right after `initialize()`: the client of an unreachable
      server is recreated and counts as healthy, while the stored state still calls it failed. */
  lemma ReconnectBreaksAgreement(initial: NetState)
    requires initial.har == HarState(true, true, 1, true, false, false, false) && initial.api.enabled == false
    ensures var unreachable := Probe(false, false, true);
      var s := After(Initialized(initial, unreachable, true, true, true), []);
      var s' := RestartServices(s, UNKNOWN, unreachable, true, true);
      && Agrees(s) && s.services == ERROR_HAR_CLIENT && s.har.httpClient
      && s'.services == ERROR_HAR_CLIENT && s'.har.httpClient && s'.har.isOk && !Agrees(s')
  {
  }

  // ----- when an update reaches its stages, and when it restarts the ESP

  /** The update gets past its first guard and the network is up. */
  predicate Online(s: NetState, env: Environment) {
    !s.disableNetwork && (s.har.enabled || s.api.enabled) && !env.apOpen && env.connected
  }

  /** A request reaches its handler. */
  predicate Heard(s: NetState) {
    s.api.enabled && s.api.server && s.api.isOk
  }

  predicate RestartsEsp(r: ApiRequest) {
    r == Reboot || r == ReconfigureWeb || r == Shutdown
  }

  /** Some service is enabled after the request. */
  predicate Supervised(s: NetState, env: Environment) {
    s.har.enabled || (s.api.enabled && !(Heard(s) && env.request == DisableApi))
  }

  /** No retest is still to be waited for. */
  predicate RetestOver(s: NetState, ts: Millis) {
    s.retestPending ==> ts >= s.retestTs
  }

  /**
   * How far an update gets: to the retest and the health check iff the network is not disabled, at least
   * one service is enabled, no access point is open, the device is connected and no served request restarts
   * the ESP; from there to the watchdog iff no reconfiguration of the web server is due. An update that
   * does not get online changes nothing.
   */
  lemma StagesExactly(s: NetState, env: Environment)
    requires s.halted == None
    ensures var (t, e) := Step(s, env);
      var working := Online(s, env) && !(Heard(s) && RestartsEsp(env.request));
      && (e.watchdogReached <==> working && !(s.forceWebCfg && !s.webCfgEnabled))
      && (e.retested <==> working && s.retestPending && env.ts >= s.retestTs)
      && (e.checked <==> working && Supervised(s, env) && RetestOver(s, env.ts) && env.ts - s.lastServiceTs > 30000)
      && (!Online(s, env) ==> t.(halted := None) == s && e == Events(false, false, false, false, false, false))
  {
    if Online(s, env) {
      hide Serve, Retest, Check, CheckEvents, Watchdog, ConfigureWeb;
      ServeMeaning(s, env.request);
      if Serve(s, env.request).halted == None {
        var checked := WorkingUpdate(s, env);
        ConfigureMeaning(checked);
      }
    }
  }

  /** The retest and the check of an update that gets that far. */
  lemma WorkingUpdate(s: NetState, env: Environment) returns (checked: NetState)
    requires s.halted == None && Online(s, env) && !(Heard(s) && RestartsEsp(env.request))
    ensures var served := Serve(s, env.request);
      var retested := Retest(served, env);
      var e := CheckEvents(retested, env, RetestDue(served, env.ts));
      && served.halted == None && checked == Check(retested, env)
      && checked.halted == None && checked.forceWebCfg == s.forceWebCfg && checked.webCfgEnabled == s.webCfgEnabled
      && (e.retested <==> s.retestPending && env.ts >= s.retestTs)
      && (e.checked <==> Supervised(s, env) && RetestOver(s, env.ts) && env.ts - s.lastServiceTs > 30000)
      && !e.watchdogReached
  {
    var served := Serve(s, env.request);
    ServeMeaning(s, env.request);
    hide Serve;
    RetestClocks(served, env);
    RetestKeepsServices(served, env);
    var retested := Retest(served, env);
    CheckClocks(retested, env, RetestDue(served, env.ts));
    hide Retest, Check, CheckEvents;
    checked := Check(retested, env);
    RetestKeepsConfiguration(served, env);
    CheckKeepsConfiguration(retested, env);
  }

  /** Enabled services and the web configuration are the same in both states. */
  predicate SameConfiguration(s: NetState, s': NetState) {
    && s.har.enabled == s'.har.enabled && s.api.enabled == s'.api.enabled
    && s.halted == s'.halted && s.forceWebCfg == s'.forceWebCfg && s.webCfgEnabled == s'.webCfgEnabled
  }

  lemma RetestKeepsConfiguration(s: NetState, env: Environment)
    ensures SameConfiguration(Retest(s, env), s)
  {
  }

  lemma RestartKeepsConfiguration(s: NetState, status: ServiceState, harCreated: bool, apiCreated: bool)
    ensures SameConfiguration(RestartFailed(s, status, harCreated, apiCreated), s)
  {
    HarRestartMeaning(s.har, harCreated);
  }

  lemma CheckKeepsConfiguration(s: NetState, env: Environment)
    ensures SameConfiguration(Check(s, env), s)
  {
    if CheckDue(s, env.ts) {
      var t := TestServices(s.(lastServiceTs := env.ts), env.checkProbe);
      assert SameConfiguration(t, s);
      hide TestServices, RestartFailed;
      RestartKeepsConfiguration(t, t.services, env.harCreated, env.apiCreated);
    }
  }

  /** What a request does: nothing unless it is heard; then it disables what it names or restarts the ESP. */
  lemma ServeMeaning(s: NetState, r: ApiRequest)
    requires s.halted == None
    ensures var t := Serve(s, r);
      && t == s.(har := t.har, api := t.api, halted := t.halted)
      && t.har == s.har.(enabled := s.har.enabled && !(Heard(s) && r == Shutdown))
      && t.api == s.api.(enabled := s.api.enabled && !(Heard(s) && (r == DisableApi || r == Shutdown)),
                         server := s.api.server && !(Heard(s) && r == Shutdown))
      && (t.halted == Some(RequestedViaApi) <==> Heard(s) && r == Reboot)
      && (t.halted == Some(ReconfigureWebCfgServer) <==> Heard(s) && r == ReconfigureWeb)
      && (t.halted == Some(SafeShutdownRequestViaApi) <==> Heard(s) && r == Shutdown)
      && (t.halted == None <==> !(Heard(s) && RestartsEsp(r)))
  {
  }

  lemma ConfigureMeaning(s: NetState)
    requires s.halted == None
    ensures var t := ConfigureWeb(s);
      && t == s.(forceWebCfg := t.forceWebCfg, halted := t.halted)
      && (t.forceWebCfg <==> s.forceWebCfg && s.webCfgEnabled)
      && t.halted == (if s.forceWebCfg && !s.webCfgEnabled then Some(ReconfigureWebCfgServer) else None)
  {
  }

  /**
   * Every restart of the ESP by an update, with its exact condition: on a lost connection, on one of three
   * requests, for a forced reconfiguration of the web server, and on the service timeout.
   */
  lemma EspRestartsExactly(s: NetState, env: Environment)
    requires s.halted == None
    ensures var (t, heard) := (Step(s, env).0, Online(s, env) && Heard(s));
      && (t.halted == Some(RestartOnDisconnectWatchdog) <==>
            && !s.disableNetwork && (s.har.enabled || s.api.enabled) && !env.apOpen
            && !env.connected && s.restartOnDisconnect && env.ts > 60000)
      && (t.halted == Some(RequestedViaApi) <==> heard && env.request == Reboot)
      && (t.halted == Some(SafeShutdownRequestViaApi) <==> heard && env.request == Shutdown)
      && (t.halted == Some(ReconfigureWebCfgServer) <==>
            || (heard && env.request == ReconfigureWeb)
            || (Online(s, env) && !(heard && RestartsEsp(env.request)) && s.forceWebCfg && !s.webCfgEnabled))
      && (heard && RestartsEsp(env.request) ==> t == Serve(s, env.request))
  {
    if Online(s, env) {
      hide Retest, Check, CheckEvents, ConfigureWeb, Watchdog, Serve;
      ServeMeaning(s, env.request);
      if Serve(s, env.request).halted == None {
        var checked := WorkingUpdate(s, env);
        ConfigureMeaning(checked);
        if ConfigureWeb(checked).halted == None { WatchdogMeaning(ConfigureWeb(checked), env.ts); }
      }
    }
  }

  /** The watchdog notes a success, or restarts the ESP, or does nothing; with its restart comes the web server. */
  lemma WatchdogMeaning(s: NetState, ts: Millis)
    requires s.halted == None
    ensures var t := Watchdog(s, ts);
      var fires := s.services != OK && s.networkTimeout > 0 && ts > 60000
        && ts - s.lastConnectedTs > s.networkTimeout * 1000;
      && t == s.(lastConnectedTs := t.lastConnectedTs, forceWebCfg := t.forceWebCfg, halted := t.halted)
      && t.lastConnectedTs == (if s.services == OK then ts else s.lastConnectedTs)
      && t.halted == (if fires then Some(NetworkTimeoutWatchdog) else None)
      && (t.forceWebCfg <==> s.forceWebCfg || (fires && !s.webCfgEnabled))
  {
  }

  // ----- what the two services report, and what starting and restarting them does

  /** Why a test of the home-automation client fails; a disabled client never does. */
  lemma HarTestFails(h: HarState, p: Probe)
    ensures h.enabled && h.mode == 1 ==>
      (!HarTest(h, p) <==> !h.httpClient || (h.hasAddress && !p.pingOk) || (h.hasStatePath && !p.getOk))
    ensures h.enabled && h.mode == 0 ==> (!HarTest(h, p) <==> !h.udpClient || (h.hasAddress && !p.pingOk))
    ensures h.enabled && h.mode != 0 && h.mode != 1 ==> !HarTest(h, p)
    ensures !h.enabled ==> HarTest(h, p)
  {
  }

  lemma ApiTestFails(a: ApiState, localIpValid: bool)
    ensures !ApiTest(a, localIpValid) <==> a.enabled && !(a.server && localIpValid)
  {
  }

  /** The state a pair of tests stands for. */
  lemma TestMeaning(s: NetState, p: Probe)
    ensures var (t, apiOk, harOk) := (TestServices(s, p), ApiTest(s.api, p.localIpValid), HarTest(s.har, p));
      && t == s.(har := s.har.(isOk := harOk), api := s.api.(isOk := apiOk), services := t.services)
      && (t.services == OK <==> apiOk && harOk)
      && (t.services == ERROR_REST_API_SERVER <==> !apiOk && harOk)
      && (t.services == ERROR_HAR_CLIENT <==> apiOk && !harOk)
      && (t.services == ERROR_BOTH <==> !apiOk && !harOk)
  {
  }

  /** A retest that is due tests both services anew; before that nothing happens. */
  lemma RetestMeaning(s: NetState, env: Environment)
    ensures var (t, p) := (Retest(s, env), env.retestProbe);
      && (!(s.retestPending && env.ts >= s.retestTs) ==> t == s)
      && (s.retestPending && env.ts >= s.retestTs ==>
            && t == s.(retestPending := false, har := t.har, api := t.api, services := t.services)
            && (t.har.isOk <==> HarTest(s.har, p)) && (t.api.isOk <==> ApiTest(s.api, p.localIpValid))
            && Agrees(t))
  {
    TestAgrees(s.(retestPending := false), env.retestProbe);
  }

  /** A restart replaces the transport of the mode in use, leaves the other alone, and can only repair the flag. */
  lemma HarRestartMeaning(h: HarState, created: bool)
    ensures var t := HarRestart(h, created);
      && t == h.(isOk := t.isOk, httpClient := t.httpClient, udpClient := t.udpClient)
      && t.httpClient == (if h.mode == 1 then created else h.httpClient)
      && t.udpClient == (if h.mode == 0 then created else h.udpClient)
      && (t.isOk <==> h.isOk || (created && (h.mode == 0 || h.mode == 1)))
  {
  }

  lemma ApiRestartMeaning(a: ApiState, created: bool)
    ensures ApiRestart(a, created) == ApiState(a.enabled, a.isOk || created, created)
  {
  }

  /** Starting creates what an enabled service lacks and neither replaces a client nor touches a disabled service. */
  lemma StartMeaning(h: HarState, a: ApiState, hasIp: bool, harCreated: bool, apiCreated: bool)
    ensures var t := HarStart(h, harCreated);
      && t == h.(httpClient := t.httpClient, udpClient := t.udpClient)
      && (t.httpClient <==> h.httpClient || (h.enabled && h.mode == 1 && harCreated))
      && (t.udpClient <==> h.udpClient || (h.enabled && h.mode == 0 && harCreated))
    ensures ApiStart(a, hasIp, apiCreated) == if a.enabled && hasIp then a.(server := apiCreated) else a
  {
  }

  /** After `initialize()` the enabled services have what could be created, and flags and state tell what works. */
  lemma InitializeMeaning(s: NetState, p: Probe, hasIp: bool, harCreated: bool, apiCreated: bool)
    ensures var t := Initialized(s, p, hasIp, harCreated, apiCreated);
      && t == s.(har := t.har, api := t.api, services := t.services)
      && t.har.enabled == s.har.enabled && t.api.enabled == s.api.enabled
      && (t.har.httpClient <==> s.har.httpClient || (s.har.enabled && s.har.mode == 1 && harCreated))
      && (t.har.udpClient <==> s.har.udpClient || (s.har.enabled && s.har.mode == 0 && harCreated))
      && t.api.server == (if s.api.enabled && hasIp then apiCreated else s.api.server)
      && (t.api.isOk <==> !s.api.enabled || (t.api.server && p.localIpValid))
      && (t.har.isOk <==> HarTest(t.har, p))
      && (t.services == OK <==> t.api.isOk && t.har.isOk)
      && (t.services == ERROR_REST_API_SERVER <==> !t.api.isOk && t.har.isOk)
      && (t.services == ERROR_HAR_CLIENT <==> t.api.isOk && !t.har.isOk)
  {
    StartMeaning(s.har, s.api, hasIp, harCreated, apiCreated);
    TestMeaning(s.(har := HarStart(s.har, harCreated), api := ApiStart(s.api, hasIp, apiCreated)), p);
    hide HarStart, ApiStart, TestServices;
  }

  // ----- timing of checks, restarts and retests

  lemma RetestClocks(s: NetState, env: Environment)
    ensures var s' := Retest(s, env);
      && s'.retestPending == (s.retestPending && !RetestDue(s, env.ts))
      && s'.retestTs == s.retestTs && s'.lastServiceTs == s.lastServiceTs
      && SameWatchdog(s', s) && s'.halted == s.halted
      && s'.restartOnDisconnect == s.restartOnDisconnect
  {
  }

  lemma CheckClocks(s: NetState, env: Environment, retested: bool)
    ensures var (s', e) := (Check(s, env), CheckEvents(s, env, retested));
      && (e.checked <==> !s.retestPending && (s'.api.enabled || s'.har.enabled) && env.ts - s.lastServiceTs > 30000)
      && s'.lastServiceTs == (if e.checked then env.ts else s.lastServiceTs)
      && (e.restarted ==> e.checked)
      && s'.retestPending == (e.restarted || s.retestPending)
      && s'.retestTs == (if e.restarted then env.ts + 1000 else s.retestTs)
      && SameWatchdog(s', s) && s'.halted == s.halted
      && s'.restartOnDisconnect == s.restartOnDisconnect
  {
  }

  /** The clocks of one step, apart from what the tests answer. */
  predicate ClocksAdvance(s: NetState, ts: Millis, s': NetState, e: Events) {
    && (e.checked ==> ts - s.lastServiceTs > 30000)
    && (e.checked ==> s.retestPending ==> e.retested)
    && (CheckOverdue(s, ts, s') && e.watchdogReached ==> e.checked)
    && s'.lastServiceTs == (if e.checked then ts else s.lastServiceTs)
    && (e.restarted ==> e.checked)
    && (e.retested ==> s.retestPending && ts >= s.retestTs)
    && (s'.retestPending <==> e.restarted || (s.retestPending && !e.retested))
    && s'.retestTs == (if e.restarted then ts + 1000 else s.retestTs)
  }

  predicate CheckOverdue(s: NetState, ts: Millis, s': NetState) {
    && (s'.api.enabled || s'.har.enabled)
    && (s.retestPending ==> ts >= s.retestTs)
    && ts - s.lastServiceTs > 30000
  }

  lemma StepClocks(s: NetState, env: Environment)
    ensures ClocksAdvance(s, env.ts, Step(s, env).0, Step(s, env).1)
  {
    var served := Serve(s, env.request);
    ServeFrame(s, env.request);
    var retested := Retest(served, env);
    RetestClocks(served, env);
    var checked := Check(retested, env);
    CheckClocks(retested, env, RetestDue(served, env.ts));
    ConfigureFrame(checked);
    WatchdogFrame(ConfigureWeb(checked), env.ts);
  }

  /** A trace in which every record advances the clocks of the one before. */
  ghost predicate ClockChain(s: NetState, t: seq<Record>)
    decreases |t|
  {
    t == [] || (ClocksAdvance(s, t[0].ts, t[0].after, t[0].events) && ClockChain(t[0].after, t[1..]))
  }

  lemma {:induction false} TraceIsClockChain(s: NetState, envs: seq<Environment>)
    ensures ClockChain(s, Trace(s, envs))
    decreases |envs|
  {
    if envs == [] || s.halted.Some? {
    } else {
      StepClocks(Reconfigured(s, envs[0].change), envs[0]);
      var s' := Turn(s, envs[0]).0;
      TraceIsClockChain(s', envs[1..]);
      assert Trace(s, envs)[1..] == Trace(s', envs[1..]);
    }
  }

  lemma {:induction false} CheckAfterLast(s: NetState, t: seq<Record>, j: nat)
    requires ClockChain(s, t) && j < |t| && t[j].events.checked
    ensures t[j].ts - s.lastServiceTs > 30000
    decreases |t|
  {
    if j == 0 {
    } else {
      CheckAfterLast(t[0].after, t[1..], j - 1);
    }
  }

  lemma {:induction false} ChecksApart(s: NetState, t: seq<Record>, i: nat, j: nat)
    requires ClockChain(s, t) && i < j < |t| && t[i].events.checked && t[j].events.checked
    ensures t[j].ts - t[i].ts > 30000
    decreases |t|
  {
    if i == 0 {
      CheckAfterLast(t[0].after, t[1..], j - 1);
    } else {
      ChecksApart(t[0].after, t[1..], i - 1, j - 1);
    }
  }

  lemma {:induction false} RestartIsCheck(s: NetState, t: seq<Record>, j: nat)
    requires ClockChain(s, t) && j < |t| && t[j].events.restarted
    ensures t[j].events.checked
    decreases |t|
  {
    if j == 0 {
    } else {
      RestartIsCheck(t[0].after, t[1..], j - 1);
    }
  }

  /** Any two service restarts of any run are more than thirty seconds apart. */
  lemma RestartsApart(s: NetState, envs: seq<Environment>, i: nat, j: nat)
    requires i < j < |Trace(s, envs)|
    requires Trace(s, envs)[i].events.restarted && Trace(s, envs)[j].events.restarted
    ensures Trace(s, envs)[j].ts - Trace(s, envs)[i].ts > 30000
  {
    var t := Trace(s, envs);
    TraceIsClockChain(s, envs);
    RestartIsCheck(s, t, i);
    RestartIsCheck(s, t, j);
    ChecksApart(s, t, i, j);
  }

  /** When the services were last checked before record `j`. */
  function LastCheck(start: int, t: seq<Record>, j: nat): int
    requires j <= |t|
  {
    if j == 0 then start else if t[j - 1].events.checked then t[j - 1].ts else LastCheck(start, t, j - 1)
  }

  lemma {:induction false} LastCheckOfTail(start: int, t: seq<Record>, j: nat)
    requires 0 < j <= |t|
    ensures LastCheck(start, t, j) == LastCheck(if t[0].events.checked then t[0].ts else start, t[1..], j - 1)
  {
    if j == 1 {
    } else {
      LastCheckOfTail(start, t, j - 1);
    }
  }

  /** A pending retest is due a second after the check that asked for it. */
  predicate RetestFollowsCheck(s: NetState) {
    s.retestPending ==> s.retestTs == s.lastServiceTs + 1000
  }

  lemma {:induction false} ChainChecksExactly(s: NetState, t: seq<Record>, j: nat)
    requires ClockChain(s, t) && RetestFollowsCheck(s) && j < |t|
    requires t[j].events.watchdogReached && (t[j].after.api.enabled || t[j].after.har.enabled)
    ensures t[j].events.checked <==> t[j].ts - LastCheck(s.lastServiceTs, t, j) > 30000
    decreases |t|
  {
    if j == 0 {
    } else {
      LastCheckOfTail(s.lastServiceTs, t, j);
      ChainChecksExactly(t[0].after, t[1..], j - 1);
    }
  }

  /**
   * No failure goes unnoticed: in a run, an update that gets as far as the watchdog with a service
   * enabled checks the services exactly when their last check is more than thirty seconds old; a
   * pending retest never delays it.
   */
  lemma ChecksExactlyWhenDue(s: NetState, envs: seq<Environment>, j: nat)
    requires RetestFollowsCheck(s) && j < |Trace(s, envs)|
    requires var r := Trace(s, envs)[j]; r.events.watchdogReached && (r.after.api.enabled || r.after.har.enabled)
    ensures var t := Trace(s, envs);
      t[j].events.checked <==> t[j].ts - LastCheck(s.lastServiceTs, t, j) > 30000
  {
    TraceIsClockChain(s, envs);
    ChainChecksExactly(s, Trace(s, envs), j);
  }

  /** Nothing touches the pending retest in the records `from <= k < to`. */
  predicate Undisturbed(t: seq<Record>, from: nat, to: nat)
    requires to <= |t|
  {
    forall k :: from <= k < to ==> !t[k].events.retested && !t[k].events.restarted
  }

  /** Record `j` is the retest of the restart in record `i`. */
  predicate Answers(t: seq<Record>, i: nat, j: nat)
    requires i < j < |t|
  {
    t[i].events.restarted && t[j].events.retested && t[j].ts >= t[i].ts + 1000 && Undisturbed(t, i + 1, j)
  }

  lemma {:induction false} RetestHasCause(s: NetState, t: seq<Record>, j: nat)
    requires ClockChain(s, t) && j < |t| && t[j].events.retested
    ensures || (s.retestPending && t[j].ts >= s.retestTs && Undisturbed(t, 0, j))
            || exists i: nat :: i < j && Answers(t, i, j)
    decreases |t|
  {
    if j == 0 {
    } else {
      var s', t' := t[0].after, t[1..];
      RetestHasCause(s', t', j - 1);
      if s'.retestPending && t'[j - 1].ts >= s'.retestTs && Undisturbed(t', 0, j - 1) {
        assert forall k :: 1 <= k < j ==> t[k] == t'[k - 1];
        if t[0].events.restarted {
          assert Answers(t, 0, j);
        }
      } else {
        var i: nat :| i < j - 1 && Answers(t', i, j - 1);
        assert forall k :: i + 2 <= k < j ==> t[k] == t'[k - 1];
        assert Answers(t, i + 1, j);
      }
    }
  }

  /** Every retest answers a restart at least a second earlier, and no restart is answered twice. */
  lemma RetestsAnswerRestarts(s: NetState, envs: seq<Environment>, j: nat)
    requires !s.retestPending && j < |Trace(s, envs)| && Trace(s, envs)[j].events.retested
    ensures exists i: nat :: i < j && Answers(Trace(s, envs), i, j)
    ensures var t := Trace(s, envs);
      forall i: nat, k: nat :: i < j < k < |t| && Answers(t, i, j) ==> !Answers(t, i, k)
  {
    TraceIsClockChain(s, envs);
    RetestHasCause(s, Trace(s, envs), j);
  }

  // ----- the timeout watchdog

  predicate SawOk(r: Record) {
    r.events.watchdogReached && r.after.services == OK
  }

  /** The timeout in force at an update, in milliseconds. */
  function Timeout(r: Record): int {
    r.after.networkTimeout * 1000
  }

  predicate WatchdogAdvances(s: NetState, ts: Millis, s': NetState, e: Events) {
    && s'.lastConnectedTs == (if e.watchdogReached && s'.services == OK then ts else s.lastConnectedTs)
    && (s'.halted == Some(NetworkTimeoutWatchdog) <==>
          e.watchdogReached && s'.services != OK && TimedOut(s.(networkTimeout := s'.networkTimeout), ts))
  }

  lemma StepWatchdog(s: NetState, env: Environment)
    requires s.halted == None
    ensures WatchdogAdvances(s, env.ts, Step(s, env).0, Step(s, env).1)
  {
    var served := Serve(s, env.request);
    ServeFrame(s, env.request);
    var retested := Retest(served, env);
    RetestClocks(served, env);
    var checked := Check(retested, env);
    CheckClocks(retested, env, RetestDue(served, env.ts));
    ConfigureFrame(checked);
    WatchdogFrame(ConfigureWeb(checked), env.ts);
  }

  ghost predicate WatchdogChain(s: NetState, t: seq<Record>)
    decreases |t|
  {
    t == [] || (WatchdogAdvances(s, t[0].ts, t[0].after, t[0].events) && WatchdogChain(t[0].after, t[1..]))
  }

  lemma {:induction false} TraceIsWatchdogChain(s: NetState, envs: seq<Environment>)
    ensures WatchdogChain(s, Trace(s, envs))
    ensures forall j :: 0 <= j < |Trace(s, envs)| ==> Trace(s, envs)[j].ts == envs[j].ts
    decreases |envs|
  {
    if envs == [] || s.halted.Some? {
    } else {
      StepWatchdog(Reconfigured(s, envs[0].change), envs[0]);
      var s' := Turn(s, envs[0]).0;
      TraceIsWatchdogChain(s', envs[1..]);
      assert Trace(s, envs)[1..] == Trace(s', envs[1..]);
    }
  }

  /** The settings as last saved, a missing timeout being -1; `start` if nothing was saved. */
  function SettingsAfter(start: Settings, envs: seq<Environment>): Settings
    decreases |envs|
  {
    if envs == [] then start
    else
      var saved := envs[0].change.saved;
      SettingsAfter(match saved
                    case None => start
                    case Some(stored) =>
                      Settings(if stored.networkTimeout == 0 then -1 else stored.networkTimeout, stored.restartOnDisconnect),
                    envs[1..])
  }

  function SettingsOf(s: NetState): Settings {
    Settings(s.networkTimeout, s.restartOnDisconnect)
  }

  lemma StepKeepsSettings(s: NetState, env: Environment)
    ensures SettingsOf(Step(s, env).0) == SettingsOf(s)
  {
    var served := Serve(s, env.request);
    assert SettingsOf(served) == SettingsOf(s);
    hide Serve, Retest, Check, CheckEvents, ConfigureWeb, Watchdog;
    RetestClocks(served, env);
    var retested := Retest(served, env);
    CheckClocks(retested, env, RetestDue(served, env.ts));
    ConfigureFrame(Check(retested, env));
    WatchdogFrame(ConfigureWeb(Check(retested, env)), env.ts);
  }

  /** Settings take effect at once and stay until they are saved again. */
  lemma {:induction false} SettingsAreLastSaved(s: NetState, envs: seq<Environment>, j: nat)
    requires j < |Trace(s, envs)|
    ensures SettingsOf(Trace(s, envs)[j].after) == SettingsAfter(SettingsOf(s), envs[..j + 1])
    decreases |envs|
  {
    hide Step;
    StepKeepsSettings(Reconfigured(s, envs[0].change), envs[0]);
    var s' := Turn(s, envs[0]).0;
    assert envs[..j + 1][1..] == envs[1..][..j];
    if j == 0 {
      assert SettingsAfter(SettingsOf(s'), envs[1..][..0]) == SettingsOf(s');
    } else {
      assert Trace(s, envs)[j] == Trace(s', envs[1..])[j - 1];
      SettingsAreLastSaved(s', envs[1..], j - 1);
    }
  }

  /** Saving changes the two settings of the supervisor ... */
  lemma SavingMeaning(s: NetState, stored: Settings)
    ensures var t := Reread(s, stored);
      && t.(networkTimeout := s.networkTimeout, restartOnDisconnect := s.restartOnDisconnect) == s
      && t.restartOnDisconnect == stored.restartOnDisconnect
      && (stored.networkTimeout != 0 ==> t.networkTimeout == stored.networkTimeout)
      && (stored.networkTimeout == 0 ==> t.networkTimeout == -1)
  {
  }

  /** ... and the web form as a whole those, if saved, and the services it disables. */
  lemma WebChangeMeaning(s: NetState, c: WebChange)
    ensures var (t, u) := (Reconfigured(s, c), if c.saved.Some? then Reread(s, c.saved.value) else s);
      && t.(har := s.har, api := s.api) == u
      && t.har.(enabled := s.har.enabled) == s.har && (t.har.enabled <==> s.har.enabled && !c.disableHar)
      && (t.api.enabled <==> s.api.enabled && !c.disableApi) && (t.api.server <==> s.api.server && !c.disableApi)
      && t.api.isOk == s.api.isOk
  {
    hide Reread;
    if c.saved.Some? {
      SavingMeaning(s, c.saved.value);
    }
  }

  /** Every service that is on in `t` is on in `s`; a server without an enabled service is not started. */
  predicate NothingStarted(s: NetState, t: NetState) {
    && (t.har.enabled ==> s.har.enabled) && (t.api.enabled ==> s.api.enabled)
    && (!s.api.enabled && !s.api.server ==> !t.api.server)
  }

  /** What the web configurator disables is off from then on; nothing but a reboot turns it on again. */
  lemma {:induction false} DisabledStaysDisabled(s: NetState, envs: seq<Environment>, j: nat)
    requires j < |Trace(s, envs)|
    ensures var t := Trace(s, envs)[j].after;
      && (!s.har.enabled || (exists i :: 0 <= i <= j && envs[i].change.disableHar) ==> !t.har.enabled)
      && (!s.api.enabled || (exists i :: 0 <= i <= j && envs[i].change.disableApi) ==> !t.api.enabled)
      && ((!s.api.enabled && !s.api.server) || (exists i :: 0 <= i <= j && envs[i].change.disableApi) ==> !t.api.server)
    decreases |envs|
  {
    hide Step;
    StepStartsNothing(Reconfigured(s, envs[0].change), envs[0]);
    if j == 0 {
    } else {
      var s' := Turn(s, envs[0]).0;
      assert Trace(s, envs)[j] == Trace(s', envs[1..])[j - 1];
      DisabledStaysDisabled(s', envs[1..], j - 1);
      assert forall i :: 1 <= i <= j ==> envs[i] == envs[1..][i - 1];
    }
  }

  lemma StepStartsNothing(s: NetState, env: Environment)
    ensures NothingStarted(s, Step(s, env).0)
  {
    hide Serve, Retest, Check, CheckEvents, ConfigureWeb, Watchdog;
    var served := Serve(s, env.request);
    ServeStartsNothing(s, env.request);
    RetestKeepsServices(served, env);
    var retested := Retest(served, env);
    CheckStartsNothing(retested, env);
    ConfigureFrame(Check(retested, env));
    WatchdogFrame(ConfigureWeb(Check(retested, env)), env.ts);
  }

  lemma ServeStartsNothing(s: NetState, r: ApiRequest)
    ensures NothingStarted(s, Serve(s, r))
  {
  }

  lemma CheckStartsNothing(s: NetState, env: Environment)
    ensures NothingStarted(s, Check(s, env))
  {
    CheckKeepsConfiguration(s, env);
    if CheckDue(s, env.ts) && !s.api.enabled {
      var t := TestServices(s.(lastServiceTs := env.ts), env.checkProbe);
      assert !t.api.enabled && t.api.server == s.api.server;
      hide TestServices, HarRestart;
    }
  }

  /** The record restarts the ESP because no service came back in time, with the timeout then in force. */
  ghost predicate FiresExactly(s: NetState, t: seq<Record>, j: nat)
    requires j < |t|
  {
    t[j].after.halted == Some(NetworkTimeoutWatchdog) <==>
      && t[j].events.watchdogReached && t[j].after.services != OK
      && Timeout(t[j]) > 0 && t[j].ts > 60000
      && t[j].ts - s.lastConnectedTs > Timeout(t[j])
      && forall i :: 0 <= i < j && SawOk(t[i]) ==> t[j].ts - t[i].ts > Timeout(t[j])
  }

  lemma {:induction false} ChainFiresExactly(s: NetState, t: seq<Record>, j: nat)
    requires WatchdogChain(s, t) && j < |t|
    requires forall i :: 0 <= i < |t| ==> s.lastConnectedTs <= t[i].ts
    requires forall i, k :: 0 <= i < k < |t| ==> t[i].ts <= t[k].ts
    ensures FiresExactly(s, t, j)
    decreases |t|
  {
    if j == 0 {
    } else {
      var s', t' := t[0].after, t[1..];
      ChainFiresExactly(s', t', j - 1);
      assert forall i :: 1 <= i < j ==> t[i] == t'[i - 1];
      assert (forall i :: 0 <= i < j - 1 && SawOk(t'[i]) ==> t'[j - 1].ts - t'[i].ts > Timeout(t'[j - 1]))
        <==> forall i :: 1 <= i < j && SawOk(t[i]) ==> t[j].ts - t[i].ts > Timeout(t[j]);
    }
  }

  /**
   * The timeout restart, exactly: it fires at an update iff that update reaches the watchdog without
   * OK, a timeout is configured, a minute has passed since boot, and neither the last success before
   * the run nor any update of the run that saw OK lies within the timeout. The timeout is the one saved
   * last before that update, so a shorter one applies at once and to the time that has already passed.
   */
  lemma WatchdogExactly(s: NetState, envs: seq<Environment>, j: nat)
    requires j < |Trace(s, envs)|
    requires forall i :: 0 <= i < |envs| ==> s.lastConnectedTs <= envs[i].ts
    requires forall i, k :: 0 <= i < k < |envs| ==> envs[i].ts <= envs[k].ts
    ensures FiresExactly(s, Trace(s, envs), j)
    ensures Timeout(Trace(s, envs)[j]) == SettingsAfter(SettingsOf(s), envs[..j + 1]).networkTimeout * 1000
  {
    TraceIsWatchdogChain(s, envs);
    SettingsAreLastSaved(s, envs, j);
    ChainFiresExactly(s, Trace(s, envs), j);
  }
}
