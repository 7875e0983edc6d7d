/** The supervisor of the two network services: health checks, restarts, retests and the watchdogs. */
module NetworkSupervisor {
  import opened Integers
  import opened Options

  // ----- values

  datatype ServiceState = OK | ERROR_REST_API_SERVER | ERROR_HAR_CLIENT | ERROR_BOTH | UNKNOWN

  datatype RestartReason =
    | RestartOnDisconnectWatchdog | ReconfigureWebCfgServer | NetworkTimeoutWatchdog
    | RequestedViaApi | SafeShutdownRequestViaApi

  /** What the outside world answers while one round of tests runs. */
  datatype Probe = Probe(pingOk: bool, getOk: bool, localIpValid: bool)

  /** What a REST request served inside `update()` can do to the services. */
  datatype ApiRequest = NoEffect | DisableApi | Reboot | ReconfigureWeb | Shutdown

  /** What `readSettings()` finds stored. */
  datatype Settings = Settings(networkTimeout: int, restartOnDisconnect: bool)

  /** What the web configurator does between two calls of `update()`: saving rereads the settings. */
  datatype WebChange = WebChange(saved: Option<Settings>, disableHar: bool, disableApi: bool)

  /** Everything one call of `update()` reads from outside, and what happened before it. */
  datatype Environment = Environment(ts: Millis, apOpen: bool, connected: bool, request: ApiRequest,
                                     retestProbe: Probe, checkProbe: Probe, harCreated: bool, apiCreated: bool,
                                     change: WebChange)

  datatype HarState = HarState(enabled: bool, isOk: bool, mode: int, hasAddress: bool, hasStatePath: bool,
                               httpClient: bool, udpClient: bool)

  datatype ApiState = ApiState(enabled: bool, isOk: bool, server: bool)

  datatype NetState = NetState(har: HarState, api: ApiState, services: ServiceState,
                               retestPending: bool, retestTs: int, lastServiceTs: int, lastConnectedTs: int,
                               networkTimeout: int, restartOnDisconnect: bool, webCfgEnabled: bool,
                               forceWebCfg: bool, disableNetwork: bool, halted: Option<RestartReason>)

  /** What one `update()` did. `restarted` says that `restartNetworkServices` ran. */
  datatype Events = Events(retested: bool, checked: bool, restarted: bool, harRestarted: bool, apiRestarted: bool,
                           watchdogReached: bool)

  /** A test or restart of a service, in the order in which the supervisor calls them. */
  datatype Call = Tested | HarRestarted | ApiRestarted

  /** The calls that `e` stands for. */
  function CallsOf(e: Events): seq<Call> {
    (if e.retested then [Tested] else []) + (if e.checked then [Tested] else [])
    + (if e.harRestarted then [HarRestarted] else []) + (if e.apiRestarted then [ApiRestarted] else [])
  }

  const QUIET := Events(false, false, false, false, false, false)

  function Encode(apiOk: bool, harOk: bool): ServiceState {
    if apiOk && harOk then OK
    else if harOk then ERROR_REST_API_SERVER
    else if apiOk then ERROR_HAR_CLIENT
    else ERROR_BOTH
  }

  /** The flags a state stands for, as `restartNetworkServices` decodes it. */
  predicate ApiFailed(services: ServiceState) {
    services == ERROR_REST_API_SERVER || services == ERROR_BOTH
  }

  predicate HarFailed(services: ServiceState) {
    services == ERROR_HAR_CLIENT || services == ERROR_BOTH
  }

  // ----- the two services

  predicate HarTest(h: HarState, p: Probe) {
    !h.enabled ||
    (if h.mode == 1 then h.httpClient && (h.hasAddress ==> p.pingOk) && (h.hasStatePath ==> p.getOk)
     else h.mode == 0 && h.udpClient && (h.hasAddress ==> p.pingOk))
  }

  function HarRestart(h: HarState, created: bool): HarState {
    if h.mode == 1 then h.(httpClient := created, isOk := created || h.isOk)
    else if h.mode == 0 then h.(udpClient := created, isOk := created || h.isOk)
    else h
  }

  predicate ApiTest(a: ApiState, localIpValid: bool) {
    !a.enabled || (a.server && localIpValid)
  }

  function ApiRestart(a: ApiState, created: bool): ApiState {
    a.(server := created, isOk := created || a.isOk)
  }

  function HarStart(h: HarState, created: bool): HarState {
    if !h.enabled then h
    else if h.mode == 1 && !h.httpClient then h.(httpClient := created)
    else if h.mode == 0 && !h.udpClient then h.(udpClient := created)
    else h
  }

  function ApiStart(a: ApiState, hasIp: bool, created: bool): ApiState {
    if !a.enabled || !hasIp then a else a.(server := created)
  }

  class HarClient {
    var enabled: bool
    var isOk: bool
    var mode: int
    var hasAddress: bool
    var hasStatePath: bool
    var httpClient: bool
    var udpClient: bool

    function View(): HarState
      reads this
    {
      HarState(enabled, isOk, mode, hasAddress, hasStatePath, httpClient, udpClient)
    }

    method Start(created: bool)
      modifies this
      ensures View() == HarStart(old(View()), created)
    {
      if !enabled {
        return;
      }
      if mode == 1 && !httpClient {
        httpClient := created;
      } else if mode == 0 && !udpClient {
        udpClient := created;
      }
    }

    method Test(p: Probe) returns (ok: bool)
      ensures ok == HarTest(View(), p)
    {
      if !enabled {
        return true;
      }
      if mode == 1 {
        if !httpClient {
          return false;
        }
        if hasAddress {
          if !p.pingOk {
            return false;
          }
        }
        if hasStatePath {
          if !p.getOk {
            return false;
          }
        }
        return true;
      } else if mode == 0 {
        if !udpClient {
          return false;
        }
        if hasAddress {
          if !p.pingOk {
            return false;
          }
        }
        return true;
      }
      return false;
    }

    method Restart(created: bool)
      modifies this
      ensures View() == HarRestart(old(View()), created)
    {
      if mode == 1 && httpClient {
        httpClient := false;
      } else if mode == 0 && udpClient {
        udpClient := false;
      }
      if mode == 1 {
        httpClient := created;
        if httpClient {
          isOk := true;
        }
      } else if mode == 0 {
        udpClient := created;
        if udpClient {
          isOk := true;
        }
      }
    }

    method SetOk(ok: bool)
      modifies this
      ensures View() == old(View()).(isOk := ok)
    {
      isOk := ok;
    }
  }

  class RestApiServer {
    var enabled: bool
    var isOk: bool
    var server: bool

    function View(): ApiState
      reads this
    {
      ApiState(enabled, isOk, server)
    }

    method Start(hasIp: bool, created: bool)
      modifies this
      ensures View() == ApiStart(old(View()), hasIp, created)
    {
      if !enabled || !hasIp {
        return;
      }
      server := created;
    }

    method Test(localIpValid: bool) returns (ok: bool)
      ensures ok == ApiTest(View(), localIpValid)
    {
      if !enabled {
        return true;
      }
      if !server {
        return false;
      }
      if !localIpValid {
        return false;
      }
      return true;
    }

    method Restart(created: bool)
      modifies this
      ensures View() == ApiRestart(old(View()), created)
    {
      if server {
        server := false;
      }
      server := created;
      if server {
        isOk := true;
      }
    }

    method SetOk(ok: bool)
      modifies this
      ensures View() == old(View()).(isOk := ok)
    {
      isOk := ok;
    }
  }

  // ----- what the web configurator changes

  function Reread(s: NetState, stored: Settings): NetState {
    s.(networkTimeout := if stored.networkTimeout == 0 then -1 else stored.networkTimeout,
       restartOnDisconnect := stored.restartOnDisconnect)
  }

  function Reconfigured(s: NetState, c: WebChange): NetState {
    var t := if c.saved.Some? then Reread(s, c.saved.value) else s;
    t.(har := t.har.(enabled := t.har.enabled && !c.disableHar),
       api := t.api.(enabled := t.api.enabled && !c.disableApi, server := t.api.server && !c.disableApi))
  }

  // ----- one update as a function

  /** A request has an effect only while the server exists and is neither disabled nor in error. */
  function Serve(s: NetState, r: ApiRequest): NetState {
    if !(s.api.enabled && s.api.server && s.api.isOk) then s
    else match r
      case NoEffect => s
      case DisableApi => s.(api := s.api.(enabled := false))
      case Reboot => s.(halted := Some(RequestedViaApi))
      case ReconfigureWeb => s.(halted := Some(ReconfigureWebCfgServer))
      case Shutdown => s.(har := s.har.(enabled := false), api := s.api.(enabled := false, server := false),
                          halted := Some(SafeShutdownRequestViaApi))
  }

  function TestServices(s: NetState, p: Probe): NetState {
    var apiOk, harOk := ApiTest(s.api, p.localIpValid), HarTest(s.har, p);
    s.(api := s.api.(isOk := apiOk), har := s.har.(isOk := harOk), services := Encode(apiOk, harOk))
  }

  /** The end of `initialize()`: both services are started and tested once. */
  function Initialized(s: NetState, p: Probe, hasIp: bool, harCreated: bool, apiCreated: bool): NetState {
    TestServices(s.(har := HarStart(s.har, harCreated), api := ApiStart(s.api, hasIp, apiCreated)), p)
  }

  predicate RetestDue(s: NetState, ts: Millis) {
    s.retestPending && ts >= s.retestTs
  }

  function Retest(s: NetState, env: Environment): NetState {
    if RetestDue(s, env.ts) then TestServices(s.(retestPending := false), env.retestProbe) else s
  }

  predicate CheckDue(s: NetState, ts: Millis) {
    !s.retestPending && (s.api.enabled || s.har.enabled) && ts - s.lastServiceTs > 30000
  }

  function Check(s: NetState, env: Environment): NetState {
    if !CheckDue(s, env.ts) then s
    else
      var t := TestServices(s.(lastServiceTs := env.ts), env.checkProbe);
      if t.services == OK then t
      else RestartAfterCheck(t, env)
  }

  function RestartAfterCheck(t: NetState, env: Environment): NetState {
    RestartFailed(t, t.services, env.harCreated, env.apiCreated).(retestPending := true, retestTs := env.ts + 1000)
  }

  /** The enabled services that `status` names are restarted. */
  function RestartFailed(s: NetState, status: ServiceState, harCreated: bool, apiCreated: bool): NetState {
    s.(har := if s.har.enabled && HarFailed(status) then HarRestart(s.har, harCreated) else s.har,
       api := if s.api.enabled && ApiFailed(status) then ApiRestart(s.api, apiCreated) else s.api)
  }

  function RestartServices(s: NetState, given: ServiceState, p: Probe, harCreated: bool, apiCreated: bool): NetState {
    if !s.har.enabled && !s.api.enabled then s
    else if given == UNKNOWN then
      var t := TestServices(s, p);
      RestartFailed(t, t.services, harCreated, apiCreated).(services := s.services)
    else RestartFailed(s, given, harCreated, apiCreated)
  }

  lemma NoCalls()
    ensures CallsOf(QUIET) == []
  {
  }

  /** The restarts `restartNetworkServices` calls for a given status. */
  function RestartCalls(s: NetState, status: ServiceState): seq<Call> {
    (if s.har.enabled && HarFailed(status) then [HarRestarted] else [])
    + (if s.api.enabled && ApiFailed(status) then [ApiRestarted] else [])
  }

  function RestartServicesCalls(s: NetState, given: ServiceState, p: Probe): seq<Call> {
    if !s.har.enabled && !s.api.enabled then []
    else if given == UNKNOWN then [Tested] + RestartCalls(s, TestServices(s, p).services)
    else RestartCalls(s, given)
  }

  function CheckEvents(s: NetState, env: Environment, retested: bool): Events {
    var t := TestServices(s, env.checkProbe);
    var checked := CheckDue(s, env.ts);
    var restarted := checked && t.services != OK;
    Events(retested, checked, restarted, restarted && s.har.enabled && HarFailed(t.services),
           restarted && s.api.enabled && ApiFailed(t.services), false)
  }

  lemma EncodeIsKnown(s: NetState, p: Probe)
    ensures TestServices(s, p).services != UNKNOWN
  {
  }

  /** The calls of a health check. */
  function CheckCalls(s: NetState, env: Environment): seq<Call> {
    if !CheckDue(s, env.ts) then []
    else
      var t := TestServices(s.(lastServiceTs := env.ts), env.checkProbe);
      if t.services == OK then [Tested] else [Tested] + RestartCalls(t, t.services)
  }

  lemma CallsOfCheck(s: NetState, env: Environment, retested: bool)
    ensures var (e, calls) := (CheckEvents(s, env, retested), (if retested then [Tested] else []) + CheckCalls(s, env));
      CallsOf(e) == calls && CallsOf(e.(watchdogReached := true)) == calls
  {
    var t := TestServices(s.(lastServiceTs := env.ts), env.checkProbe);
    assert TestServices(s, env.checkProbe).services == t.services;
    assert t.har.enabled == s.har.enabled && t.api.enabled == s.api.enabled;
  }

  function ConfigureWeb(s: NetState): NetState {
    if s.forceWebCfg && !s.webCfgEnabled then s.(forceWebCfg := false, halted := Some(ReconfigureWebCfgServer))
    else if !s.webCfgEnabled then s.(forceWebCfg := false)
    else s
  }

  predicate TimedOut(s: NetState, ts: Millis) {
    s.networkTimeout > 0 && ts > 60000 && ts - s.lastConnectedTs > s.networkTimeout * 1000
  }

  function Watchdog(s: NetState, ts: Millis): NetState {
    if s.services == OK then s.(lastConnectedTs := ts)
    else if TimedOut(s, ts) then
      s.(forceWebCfg := s.forceWebCfg || !s.webCfgEnabled, halted := Some(NetworkTimeoutWatchdog))
    else s
  }

  predicate Skipped(s: NetState, env: Environment) {
    s.disableNetwork || (!s.har.enabled && !s.api.enabled) || env.apOpen
  }

  function Step(s: NetState, env: Environment): (NetState, Events) {
    if Skipped(s, env) then (s, QUIET)
    else if !env.connected then
      (if s.restartOnDisconnect && env.ts > 60000 then s.(halted := Some(RestartOnDisconnectWatchdog)) else s, QUIET)
    else
      var served := Serve(s, env.request);
      if served.halted.Some? then (served, QUIET)
      else
        var retested := Retest(served, env);
        var checked := Check(retested, env);
        var events := CheckEvents(retested, env, RetestDue(served, env.ts));
        var configured := ConfigureWeb(checked);
        if configured.halted.Some? then (configured, events)
        else (Watchdog(configured, env.ts), events.(watchdogReached := true))
  }

  /** One update with what the web configurator did before it. */
  function Turn(s: NetState, env: Environment): (NetState, Events) {
    Step(Reconfigured(s, env.change), env)
  }

  // ----- the object

  class NukiNetwork {
    const har: HarClient
    const api: RestApiServer
    var services: ServiceState
    var retestPending: bool
    var retestTs: int
    var lastServiceTs: int
    var lastConnectedTs: int
    var networkTimeout: int
    var restartOnDisconnect: bool
    var webCfgEnabled: bool
    var forceWebCfg: bool
    var disableNetwork: bool
    /** Set by `restartEsp`, which never returns. */
    var halted: Option<RestartReason>
    /** Every test and restart, appended where it is called. */
    ghost var calls: seq<Call>

    function View(): NetState
      reads this, har, api
    {
      NetState(har.View(), api.View(), services, retestPending, retestTs, lastServiceTs, lastConnectedTs,
               networkTimeout, restartOnDisconnect, webCfgEnabled, forceWebCfg, disableNetwork, halted)
    }

    constructor (har: HarClient, api: RestApiServer, networkTimeout: int, restartOnDisconnect: bool,
                 webCfgEnabled: bool, disableNetwork: bool)
      ensures this.har == har && this.api == api && calls == []
      ensures View() == NetState(har.View(), api.View(), UNKNOWN, false, 0, 0, 0, networkTimeout,
                                 restartOnDisconnect, webCfgEnabled, false, disableNetwork, None)
    {
      this.har, this.api := har, api;
      services, retestPending, retestTs, lastServiceTs, lastConnectedTs := UNKNOWN, false, 0, 0, 0;
      this.networkTimeout, this.restartOnDisconnect := networkTimeout, restartOnDisconnect;
      this.webCfgEnabled, forceWebCfg, this.disableNetwork := webCfgEnabled, false, disableNetwork;
      halted, calls := None, [];
    }

    /** `testNetworkServices` together with the assignment of its result. */
    method TestNetworkServices(p: Probe) returns (state: ServiceState)
      modifies this`calls, har, api
      ensures View().(services := state) == TestServices(old(View()), p)
      ensures services == old(services) && calls == old(calls) + [Tested]
    {
      var apiOk := api.Test(p.localIpValid);
      api.SetOk(apiOk);
      var harOk := har.Test(p);
      har.SetOk(harOk);
      calls := calls + [Tested];
      if apiOk && harOk { return OK; }
      if !apiOk && harOk { return ERROR_REST_API_SERVER; }
      if apiOk && !harOk { return ERROR_HAR_CLIENT; }
      return ERROR_BOTH;
    }

    /** The service part of `initialize()`, once a network device exists. */
    method Initialize(p: Probe, hasIp: bool, harCreated: bool, apiCreated: bool)
      modifies this`services, this`calls, har, api
      ensures View() == Initialized(old(View()), p, hasIp, harCreated, apiCreated)
    {
      har.Start(harCreated);
      api.Start(hasIp, apiCreated);
      services := TestNetworkServices(p);
    }

    /** The restarting half of `restartNetworkServices`. */
    method RestartFailedServices(status: ServiceState, harCreated: bool, apiCreated: bool)
      modifies this`calls, har, api
      ensures har.View() == RestartFailed(old(View()), status, harCreated, apiCreated).har
      ensures api.View() == RestartFailed(old(View()), status, harCreated, apiCreated).api
      ensures calls == old(calls) + RestartCalls(old(View()), status)
    {
      if har.enabled {
        if status == ERROR_HAR_CLIENT || status == ERROR_BOTH {
          har.Restart(harCreated);
          calls := calls + [HarRestarted];
        }
      }
      if api.enabled {
        if status == ERROR_REST_API_SERVER || status == ERROR_BOTH {
          api.Restart(apiCreated);
          calls := calls + [ApiRestarted];
        }
      }
    }

    /** `restartNetworkServices`; an UNKNOWN status makes it test for itself and keep the result to itself. */
    method RestartNetworkServices(given: ServiceState, p: Probe, harCreated: bool, apiCreated: bool)
      modifies this`calls, har, api
      ensures har.View() == RestartServices(old(View()), given, p, harCreated, apiCreated).har
      ensures api.View() == RestartServices(old(View()), given, p, harCreated, apiCreated).api
      ensures calls == old(calls) + RestartServicesCalls(old(View()), given, p)
    {
      var status := given;
      if !har.enabled && !api.enabled {
        return;
      }
      if status == UNKNOWN {
        status := TestNetworkServices(p);
      }
      if status == OK {
        return;
      }
      RestartFailedServices(status, harCreated, apiCreated);
    }

    /** `RestApiServer::handleClient` as far as it reaches the supervisor. */
    method HandleClient(r: ApiRequest)
      requires halted == None
      modifies this`halted, har, api
      ensures View() == Serve(old(View()), r)
    {
      if api.enabled && api.server && api.isOk {
        match r {
          case NoEffect =>
          case DisableApi => api.enabled := false;
          case Reboot => halted := Some(RequestedViaApi);
          case ReconfigureWeb => halted := Some(ReconfigureWebCfgServer);
          case Shutdown =>
            har.enabled := false;
            api.enabled, api.server := false, false;
            halted := Some(SafeShutdownRequestViaApi);
        }
      }
    }

    /** The retest that a restart left pending. */
    method RetestServices(env: Environment)
      modifies this`services, this`retestPending, this`calls, har, api
      ensures View() == Retest(old(View()), env)
      ensures calls == old(calls) + if RetestDue(old(View()), env.ts) then [Tested] else []
    {
      if retestPending && env.ts >= retestTs {
        retestPending := false;
        services := TestNetworkServices(env.retestProbe);
      }
    }

    /** What a failed health check sets in motion. */
    method RestartAndArmRetest(env: Environment)
      requires services != OK && services != UNKNOWN
      modifies this`retestPending, this`retestTs, this`calls, har, api
      ensures View() == RestartAfterCheck(old(View()), env)
      ensures calls == old(calls) + RestartCalls(old(View()), old(services))
    {
      hide TestServices, HarTest, ApiTest, HarRestart, ApiRestart;
      RestartNetworkServices(services, env.checkProbe, env.harCreated, env.apiCreated);
      retestPending := true;
      retestTs := env.ts + 1000;
    }

    /** A health check that is due. */
    method TestAndRestart(env: Environment)
      requires CheckDue(View(), env.ts)
      modifies this`services, this`retestPending, this`retestTs, this`lastServiceTs, this`calls, har, api
      ensures View() == Check(old(View()), env)
      ensures calls == old(calls) + CheckCalls(old(View()), env)
    {
      hide TestServices, RestartAfterCheck, RestartCalls;
      lastServiceTs := env.ts;
      ghost var s := View();
      services := TestNetworkServices(env.checkProbe);
      ghost var t := View();
      assert t == TestServices(s, env.checkProbe);
      EncodeIsKnown(s, env.checkProbe);
      if services != OK {
        RestartAndArmRetest(env);
        assert View() == RestartAfterCheck(t, env);
      }
    }

    /** The regular health check. */
    method CheckServices(env: Environment)
      modifies this`services, this`retestPending, this`retestTs, this`lastServiceTs, this`calls, har, api
      ensures View() == Check(old(View()), env)
      ensures calls == old(calls) + CheckCalls(old(View()), env)
    {
      hide TestServices, RestartAfterCheck, RestartCalls;
      if !retestPending && (api.enabled || har.enabled) && env.ts - lastServiceTs > 30000 {
        TestAndRestart(env);
      }
    }

    /** A requested reconfiguration of the web server. */
    method ConfigureWebServer()
      requires halted == None
      modifies this`forceWebCfg, this`halted
      ensures View() == ConfigureWeb(old(View()))
    {
      if forceWebCfg && !webCfgEnabled {
        forceWebCfg := false;
        halted := Some(ReconfigureWebCfgServer);
      } else if !webCfgEnabled {
        forceWebCfg := false;
      }
    }

    /** The service-timeout watchdog. */
    method RunWatchdog(ts: Millis)
      requires halted == None
      modifies this`lastConnectedTs, this`forceWebCfg, this`halted
      ensures View() == Watchdog(old(View()), ts)
    {
      if services == OK {
        lastConnectedTs := ts;
      } else if networkTimeout > 0 && ts > 60000 && ts - lastConnectedTs > networkTimeout * 1000 {
        if !webCfgEnabled {
          forceWebCfg := true;
        }
        halted := Some(NetworkTimeoutWatchdog);
      }
    }

    /** `readSettings()`: a missing timeout is stored as -1, which switches the watchdog off. */
    method ReadSettings(stored: Settings)
      modifies this`networkTimeout, this`restartOnDisconnect
      ensures View() == Reread(old(View()), stored)
    {
      restartOnDisconnect := stored.restartOnDisconnect;
      networkTimeout := stored.networkTimeout;
      if networkTimeout == 0 {
        networkTimeout := -1;
      }
    }

    method DisableHar()
      modifies har
      ensures View() == Reconfigured(old(View()), WebChange(None, true, false))
    {
      har.enabled := false;
    }

    method DisableApi()
      modifies api
      ensures View() == Reconfigured(old(View()), WebChange(None, false, true))
    {
      api.enabled, api.server := false, false;
    }

    /** What saving the web form does to the supervisor. */
    method ApplyWebChange(c: WebChange)
      modifies this`networkTimeout, this`restartOnDisconnect, har, api
      ensures View() == Reconfigured(old(View()), c)
    {
      if c.disableHar {
        DisableHar();
      }
      if c.disableApi {
        DisableApi();
      }
      if c.saved.Some? {
        ReadSettings(c.saved.value);
      }
    }

    method Update(env: Environment) returns (served: bool)
      requires halted == None
      modifies this, har, api
      ensures View() == Step(old(View()), env).0
      ensures calls == old(calls) + CallsOf(Step(old(View()), env).1)
      ensures halted == None ==> (served <==> Step(old(View()), env).1.watchdogReached)
    {
      hide Retest, Check, CheckEvents, CheckCalls, ConfigureWeb, Watchdog, RetestDue, CallsOf;
      ghost var s := View();
      NoCalls();
      if disableNetwork || (!har.enabled && !api.enabled) || env.apOpen {
        return false;
      }
      if !env.connected {
        if restartOnDisconnect && env.ts > 60000 {
          halted := Some(RestartOnDisconnectWatchdog);
        }
        return false;
      }
      if api.enabled {
        HandleClient(env.request);
      }
      assert View() == Serve(s, env.request);
      if halted.Some? {
        return false;
      }
      CallsOfCheck(Retest(View(), env), env, RetestDue(View(), env.ts));
      RetestServices(env);
      CheckServices(env);
      ConfigureWebServer();
      if halted.Some? {
        return false;
      }
      RunWatchdog(env.ts);
      served := halted == None;
    }
  }
}
