/**
 * The engine's lifecycle (internal/engine/engine.go:129-392): Start brings servers up and
 * takes the system over, unwinding on failure; Stop swaps the servers out under the lock and
 * tears them down.
 */
module Lifecycle {
  import opened Basics

  datatype Mode = ProxyOnly | Pac | System | Hosts | Dns(system: bool)

  datatype Server = ProxyServer | PacServer | ReverseServer | DnsServer

  datatype Takeover = ProxySettings | HostsFile | DnsSettings

  /** What an observer sees the engine do. */
  datatype Action =
    | Up(server: Server)
    | Down(server: Server)
    | Taken(what: Takeover)
    | TakeFailed(what: Takeover)
    | RestoreTried(what: Takeover)

  /** The calls of Start that can fail, in source order. */
  datatype Point =
    | BuildMatcher | EnabledProviders | BuildResolver | BuildDialer
    | HostsEntries | StartReverse | CheckCert | CertMissing | InstallCert | PreflightHosts | ApplyHosts | EnsureRootCa | PrepareElevated
    | SystemDnsConfig | PreflightDns | DnsConfig | DnsForwarder | BuildDns | StartDns | ApplyDns
    | StartProxy | BuildPac | StartPac | ApplyProxy

  datatype StartError = AlreadyRunning | FailedAt(point: Point)

  /**
   * How hosts mode changes the system: directly, or through the elevated helper when that is
   * preferred or a direct failure is one to retry with it.
   */
  datatype Preparation = Preparation(preferHelper: bool, certInstalled: bool, autoInstall: bool, retry: Point -> bool)

  function ServersOf(mode: Mode): set<Server>
  {
    match mode
    case ProxyOnly => {ProxyServer}
    case Pac => {ProxyServer, PacServer}
    case System => {ProxyServer}
    case Hosts => {ReverseServer}
    case Dns(_) => {ReverseServer, DnsServer}
  }

  function TakeoverOf(mode: Mode): Option<Takeover>
  {
    match mode
    case ProxyOnly => None
    case Pac => Some(ProxySettings)
    case System => Some(ProxySettings)
    case Hosts => Some(HostsFile)
    case Dns(system) => if system then Some(DnsSettings) else None
  }

  /** The servers up after some actions. */
  function Live(log: seq<Action>): set<Server>
  {
    if log == [] then {}
    else
      var before, last := Live(log[..|log| - 1]), log[|log| - 1];
      match last
      case Up(s) => before + {s}
      case Down(s) => before - {s}
      case _ => before
  }

  // ----- the engine -----

  class Engine {
    const mode: Mode
    var running: bool
    var held: set<Server>
    var lastErr: bool
    var log: seq<Action>

    /** A running engine holds its mode's servers; a stopped one holds none. */
    ghost predicate Valid() reads this { (running ==> held == ServersOf(mode)) && (!running ==> held == {}) && Live(log) == held }

    constructor (mode: Mode)
      ensures Valid() && !running && log == [] && this.mode == mode
    {
      this.mode, running, held, lastErr, log := mode, false, {}, false, [];
    }

    method Do(a: Action)
      modifies this`log
      ensures log == old(log) + [a]
      ensures Live(log) == match a case Up(s) => Live(old(log)) + {s} case Down(s) => Live(old(log)) - {s} case _ => Live(old(log))
    {
      log := log + [a];
      assert log[..|log| - 1] == old(log);
    }

    /**
     * Any set of calls may fail. On error the engine is as it was, every server this Start
     * brought up is down again; in system-DNS mode the take-over comes after the DNS server is
     * up and a failed one is followed by a restore before that server goes down.
     */
    method Start(fails: Point -> bool, prep: Preparation) returns (err: Option<StartError>)
      requires Valid()
      modifies this
      ensures Valid() && old(log) <= log
      ensures err.Some? ==> running == old(running) && held == old(held)
      ensures err == None <==>
        && !old(running) && !fails(BuildMatcher) && !fails(EnabledProviders) && !fails(BuildResolver) && !fails(BuildDialer)
        && (mode == Hosts ==> !fails(HostsEntries) && !fails(StartReverse) && CanPrepare(fails, prep))
        && (mode.Dns? ==> !fails(StartReverse) && !fails(DnsConfig) && !fails(DnsForwarder) && !fails(BuildDns) && !fails(StartDns))
        && (mode == Dns(true) ==> !fails(SystemDnsConfig) && !fails(PreflightDns) && !fails(ApplyDns))
        && (mode in {ProxyOnly, Pac, System} ==> !fails(StartProxy))
        && (mode == Pac ==> !fails(BuildPac) && !fails(StartPac)) && (mode in {Pac, System} ==> !fails(ApplyProxy))
      ensures err == None ==> running && Live(log) == ServersOf(mode)
      ensures err == None ==> log == old(log) + StartLog(mode)
      ensures err == None ==> forall w :: Taken(w) in log[|old(log)|..] <==> Takes(mode, w)
      ensures err.Some? ==> NothingTaken(log[|old(log)|..])
      ensures DnsOrderKept(old(log), log)
      ensures err == Some(FailedAt(ApplyDns)) ==>
        log == old(log) + [Up(ReverseServer), Up(DnsServer), TakeFailed(DnsSettings), RestoreTried(DnsSettings), Down(DnsServer), Down(ReverseServer)]
      ensures err == Some(FailedAt(ApplyProxy)) ==> RestoreTried(ProxySettings) !in log[|old(log)|..]
    {
      hide Live, DnsOrderKept, StartLog, CanPrepare, Takes;
      if running {
        NoActions(log);
        return Some(AlreadyRunning);
      }
      err := Prepare(fails);
      if err.Some? {
        NoActions(log);
        return;
      }
      match mode {
        case Hosts => err := StartHosts(fails, prep);
        case Dns(system) => err := StartDnsMode(fails, system);
        case _ => err := StartProxyMode(fails);
      }
      if err.Some? { return; }
      held, lastErr, running := ServersOf(mode), false, true;
      assert log[|old(log)|..] == StartLog(mode);
      StartTakes(mode);
    }

    method Prepare(fails: Point -> bool) returns (err: Option<StartError>)
      ensures err == None <==> forall p: Point :: p.BuildMatcher? || p.EnabledProviders? || p.BuildResolver? || p.BuildDialer? ==> !fails(p)
      ensures err.Some? ==> err.value.FailedAt? && (err.value.point in {BuildMatcher, EnabledProviders, BuildResolver, BuildDialer})
    {
      if fails(BuildMatcher) { return Some(FailedAt(BuildMatcher)); }
      if fails(EnabledProviders) { return Some(FailedAt(EnabledProviders)); }
      if fails(BuildResolver) { return Some(FailedAt(BuildResolver)); }
      if fails(BuildDialer) { return Some(FailedAt(BuildDialer)); }
      err := None;
    }

    method StartHosts(fails: Point -> bool, prep: Preparation) returns (err: Option<StartError>)
      requires mode == Hosts && Live(log) == {}
      modifies this`log
      ensures old(log) <= log && DnsOrderKept(old(log), log)
      ensures err == None <==> !fails(HostsEntries) && !fails(StartReverse) && CanPrepare(fails, prep)
      ensures Live(log) == if err == None then ServersOf(mode) else {}
      ensures err == None ==> log == old(log) + StartLog(mode)
      ensures err.Some? ==> NothingTaken(log[|old(log)|..])
      ensures err.Some? ==> err.value.FailedAt? && !err.value.point.ApplyDns? && !err.value.point.ApplyProxy?
    {
      hide Live, DnsOrderKept, CanPrepare;
      ghost var start := log;
      PlainActions(start, log, []);
      if fails(HostsEntries) { return Some(FailedAt(HostsEntries)); }
      if fails(StartReverse) { return Some(FailedAt(StartReverse)); }
      Do(Up(ReverseServer));
      var failed := PrepareHosts(fails, prep);
      if failed.Some? {
        Do(TakeFailed(HostsFile));
        Do(Down(ReverseServer));
        PlainActions(start, log, [Up(ReverseServer), TakeFailed(HostsFile), Down(ReverseServer)]);
        return Some(FailedAt(failed.value));
      }
      Do(Taken(HostsFile));
      PlainActions(start, log, [Up(ReverseServer), Taken(HostsFile)]);
      err := None;
    }

    /** The error of a failed retry is the direct one. */
    method PrepareHosts(fails: Point -> bool, prep: Preparation) returns (failed: Option<Point>)
      ensures failed == None <==> CanPrepare(fails, prep)
      ensures failed.Some? ==> failed.value in {CheckCert, CertMissing, InstallCert, PreflightHosts, ApplyHosts, EnsureRootCa, PrepareElevated}
      ensures failed.Some? && !prep.preferHelper ==> failed == DirectFailure(fails, prep)
    {
      if prep.preferHelper {
        failed := PrepareWithHelper(fails);
        return;
      }
      failed := PrepareDirect(fails, prep);
      if failed.None? || !prep.retry(failed.value) { return; }
      var again := PrepareWithHelper(fails);
      if again.None? { failed := None; }
    }

    method PrepareWithHelper(fails: Point -> bool) returns (failed: Option<Point>)
      ensures failed == None <==> HelperWorks(fails)
      ensures failed.Some? ==> failed.value in {EnsureRootCa, PrepareElevated}
    {
      if fails(EnsureRootCa) { return Some(EnsureRootCa); }
      failed := if fails(PrepareElevated) then Some(PrepareElevated) else None;
    }

    method PrepareDirect(fails: Point -> bool, prep: Preparation) returns (failed: Option<Point>)
      ensures failed == DirectFailure(fails, prep)
    {
      if fails(CheckCert) { return Some(CheckCert); }
      if !prep.certInstalled {
        if !prep.autoInstall { return Some(CertMissing); }
        if fails(InstallCert) { return Some(InstallCert); }
      }
      if fails(PreflightHosts) { return Some(PreflightHosts); }
      if fails(ApplyHosts) { return Some(ApplyHosts); }
      failed := None;
    }

    method StartDnsMode(fails: Point -> bool, system: bool) returns (err: Option<StartError>)
      requires mode == Dns(system) && Live(log) == {}
      modifies this`log
      ensures old(log) <= log && DnsOrderKept(old(log), log)
      ensures err == None <==> forall p :: DnsPoint(system, p) ==> !fails(p)
      ensures Live(log) == if err == None then ServersOf(mode) else {}
      ensures err == None ==> log == old(log) + StartLog(mode)
      ensures err.Some? ==> NothingTaken(log[|old(log)|..])
      ensures err.Some? ==> err.value.FailedAt? && !err.value.point.ApplyProxy?
      ensures err == Some(FailedAt(ApplyDns)) ==>
        log == old(log) + [Up(ReverseServer), Up(DnsServer), TakeFailed(DnsSettings), RestoreTried(DnsSettings), Down(DnsServer), Down(ReverseServer)]
    {
      hide Live, DnsOrderKept;
      ghost var start := log;
      PlainActions(start, log, []);
      if system {
        if fails(SystemDnsConfig) { return Some(FailedAt(SystemDnsConfig)); }
        if fails(PreflightDns) { return Some(FailedAt(PreflightDns)); }
      }
      if fails(StartReverse) { return Some(FailedAt(StartReverse)); }
      Do(Up(ReverseServer));
      var points := [DnsConfig, DnsForwarder, BuildDns, StartDns];
      var failed := FirstFailure(fails, points);
      if failed.Some? {
        Do(Down(ReverseServer));
        PlainActions(start, log, [Up(ReverseServer), Down(ReverseServer)]);
        return Some(FailedAt(failed.value));
      }
      assert !fails(points[0]) && !fails(points[1]) && !fails(points[2]) && !fails(points[3]);
      Do(Up(DnsServer));
      if !system {
        PlainActions(start, log, [Up(ReverseServer), Up(DnsServer)]);
        return None;
      }
      err := TakeDns(start, fails);
      ghost var part := [Up(ReverseServer), Up(DnsServer), TakeFailed(DnsSettings), RestoreTried(DnsSettings), Down(DnsServer), Down(ReverseServer)];
      assert err.Some? ==> log[|start|..] == part;
    }

    /** The last step of system-DNS mode, with both servers up. */
    method TakeDns(ghost start: seq<Action>, fails: Point -> bool) returns (err: Option<StartError>)
      requires mode == Dns(true) && Live(log) == ServersOf(mode) && log == start + [Up(ReverseServer), Up(DnsServer)]
      modifies this`log
      ensures start <= log && DnsOrderKept(start, log)
      ensures err == if fails(ApplyDns) then Some(FailedAt(ApplyDns)) else None
      ensures Live(log) == if err == None then ServersOf(mode) else {}
      ensures err == None ==> log == start + [Up(ReverseServer), Up(DnsServer), Taken(DnsSettings)]
      ensures err.Some? ==>
        log == start + [Up(ReverseServer), Up(DnsServer), TakeFailed(DnsSettings), RestoreTried(DnsSettings), Down(DnsServer), Down(ReverseServer)]
    {
      hide Live, DnsOrderKept;
      if fails(ApplyDns) {
        Do(TakeFailed(DnsSettings));
        Do(RestoreTried(DnsSettings));
        Do(Down(DnsServer));
        Do(Down(ReverseServer));
        FailedDnsOrder(start, log);
        return Some(FailedAt(ApplyDns));
      }
      Do(Taken(DnsSettings));
      TakenDnsOrder(start, log);
      err := None;
    }

    method StartProxyMode(fails: Point -> bool) returns (err: Option<StartError>)
      requires mode in {ProxyOnly, Pac, System} && Live(log) == {}
      modifies this`log
      ensures old(log) <= log && DnsOrderKept(old(log), log)
      ensures err == None <==> forall p :: ProxyPoint(mode, p) ==> !fails(p)
      ensures Live(log) == if err == None then ServersOf(mode) else {}
      ensures err == None ==> log == old(log) + StartLog(mode)
      ensures err.Some? ==> NothingTaken(log[|old(log)|..])
      ensures err.Some? ==> err.value.FailedAt? && !err.value.point.ApplyDns?
      ensures RestoreTried(ProxySettings) !in log[|old(log)|..]
    {
      hide Live, DnsOrderKept;
      ghost var start := log;
      PlainActions(start, log, []);
      if fails(StartProxy) { return Some(FailedAt(StartProxy)); }
      Do(Up(ProxyServer));
      if mode == Pac {
        var points := [BuildPac, StartPac];
        var failed := FirstFailure(fails, points);
        if failed.Some? {
          Do(Down(ProxyServer));
          PlainActions(start, log, [Up(ProxyServer), Down(ProxyServer)]);
          return Some(FailedAt(failed.value));
        }
        assert !fails(points[0]) && !fails(points[1]);
        Do(Up(PacServer));
      }
      if mode == ProxyOnly {
        PlainActions(start, log, [Up(ProxyServer)]);
        return None;
      }
      err := TakeProxy(start, fails);
    }

    /** The last step of the two modes that take the proxy settings over. */
    method TakeProxy(ghost start: seq<Action>, fails: Point -> bool) returns (err: Option<StartError>)
      requires mode in {Pac, System} && Live(log) == ServersOf(mode)
      requires log == start + if mode == Pac then [Up(ProxyServer), Up(PacServer)] else [Up(ProxyServer)]
      modifies this`log
      ensures start <= log && DnsOrderKept(start, log) && RestoreTried(ProxySettings) !in log[|start|..]
      ensures err == if fails(ApplyProxy) then Some(FailedAt(ApplyProxy)) else None
      ensures Live(log) == if err == None then ServersOf(mode) else {}
      ensures err == None ==> log == start + StartLog(mode)
      ensures err.Some? ==> NothingTaken(log[|start|..])
    {
      hide Live, DnsOrderKept;
      if fails(ApplyProxy) {
        Do(TakeFailed(ProxySettings));
        if mode == Pac { Do(Down(PacServer)); }
        Do(Down(ProxyServer));
        PlainActions(start, log, if mode == Pac
                                 then [Up(ProxyServer), Up(PacServer), TakeFailed(ProxySettings), Down(PacServer), Down(ProxyServer)]
                                 else [Up(ProxyServer), TakeFailed(ProxySettings), Down(ProxyServer)]);
        return Some(FailedAt(ApplyProxy));
      }
      Do(Taken(ProxySettings));
      ghost var part := if mode == Pac then [Up(ProxyServer), Up(PacServer), Taken(ProxySettings)] else [Up(ProxyServer), Taken(ProxySettings)];
      PlainActions(start, log, part);
      err := None;
    }

    /**
     * Tears down what is held, whatever fails on the way, and returns the first failure; a
     * missing rollback state (`noState`) is not one.
     */
    method Stop(fails: Action -> bool, noState: bool) returns (failed: Option<Action>)
      requires Valid()
      modifies this
      ensures Valid() && !running && held == {}
      ensures !old(running) ==> log == old(log) && failed == None && lastErr == old(lastErr)
      ensures old(running) ==> log == old(log) + Plan(mode) && failed == FirstBad(Plan(mode), fails, noState) && lastErr == failed.Some?
    {
      hide Live, Bad, FirstBad;
      var mine := held;
      held, running := {}, false;
      SomeServer(mode);
      if ProxyServer !in mine && ReverseServer !in mine && DnsServer !in mine {
        return None;
      }
      ghost var start, done := log, [];
      failed, done := RestoreSystem(fails, noState, start);
      failed, done := StopServers(mine, failed, fails, noState, start, done);
      lastErr := failed.Some?;
      assert done == Plan(mode);
    }

    /** The mode's restore, if it has one. */
    method RestoreSystem(fails: Action -> bool, noState: bool, ghost start: seq<Action>)
      returns (failed: Option<Action>, ghost done: seq<Action>)
      requires log == start
      modifies this`log
      ensures done == if TakeoverOf(mode).Some? then [RestoreTried(TakeoverOf(mode).value)] else []
      ensures log == start + done && failed == FirstBad(done, fails, noState) && Live(log) == Live(old(log))
    {
      hide Live, Bad, FirstBad;
      failed, done := None, [];
      NothingBad(fails, noState);
      if mode == Pac || mode == System { failed, done := Attempt(RestoreTried(ProxySettings), failed, fails, noState, start, done); }
      if mode == Hosts { failed, done := Attempt(RestoreTried(HostsFile), failed, fails, noState, start, done); }
      if mode == Dns(true) { failed, done := Attempt(RestoreTried(DnsSettings), failed, fails, noState, start, done); }
    }

    /** A stop of each captured server that is there, in a fixed order. */
    method StopServers(mine: set<Server>, failed0: Option<Action>, fails: Action -> bool, noState: bool, ghost start: seq<Action>, ghost done0: seq<Action>)
      returns (failed: Option<Action>, ghost done: seq<Action>)
      requires log == start + done0 && failed0 == FirstBad(done0, fails, noState)
      modifies this`log
      ensures done == done0 + (if PacServer in mine then [Down(PacServer)] else []) + (if DnsServer in mine then [Down(DnsServer)] else [])
                      + (if ReverseServer in mine then [Down(ReverseServer)] else []) + if ProxyServer in mine then [Down(ProxyServer)] else []
      ensures log == start + done && failed == FirstBad(done, fails, noState) && Live(log) == Live(old(log)) - mine
    {
      hide Live, Bad, FirstBad;
      failed, done := failed0, done0;
      if PacServer in mine { failed, done := Attempt(Down(PacServer), failed, fails, noState, start, done); }
      if DnsServer in mine { failed, done := Attempt(Down(DnsServer), failed, fails, noState, start, done); }
      if ReverseServer in mine { failed, done := Attempt(Down(ReverseServer), failed, fails, noState, start, done); }
      if ProxyServer in mine { failed, done := Attempt(Down(ProxyServer), failed, fails, noState, start, done); }
      assert forall s :: s in mine ==> s.PacServer? || s.DnsServer? || s.ReverseServer? || s.ProxyServer?;
    }

    /** One teardown action; its error counts only when there is none yet. */
    method Attempt(a: Action, failed: Option<Action>, fails: Action -> bool, noState: bool, ghost start: seq<Action>, ghost done: seq<Action>)
      returns (first: Option<Action>, ghost done': seq<Action>)
      requires log == start + done && failed == FirstBad(done, fails, noState)
      modifies this`log
      ensures done' == done + [a] && log == start + done' && first == FirstBad(done', fails, noState)
      ensures Live(log) == match a case Up(s) => Live(old(log)) + {s} case Down(s) => Live(old(log)) - {s} case _ => Live(old(log))
    {
      Do(a);
      done' := done + [a];
      assert done'[..|done|] == done;
      first := if failed.None? && Bad(a, fails, noState) then Some(a) else failed;
    }
  }

  method FirstFailure(fails: Point -> bool, points: seq<Point>) returns (r: Option<Point>)
    ensures r.None? <==> forall i :: 0 <= i < |points| ==> !fails(points[i])
    ensures r.Some? ==> r.value in points && fails(r.value)
  {
    for n := 0 to |points|
      invariant forall i :: 0 <= i < n ==> !fails(points[i])
    {
      if fails(points[n]) { return Some(points[n]); }
    }
    r := None;
  }

  // ----- Start and Stop -----

  /** What a Start that succeeds does, mode by mode. */
  ghost function StartLog(mode: Mode): seq<Action>
  {
    match mode
    case ProxyOnly => [Up(ProxyServer)]
    case Pac => [Up(ProxyServer), Up(PacServer), Taken(ProxySettings)]
    case System => [Up(ProxyServer), Taken(ProxySettings)]
    case Hosts => [Up(ReverseServer), Taken(HostsFile)]
    case Dns(system) => [Up(ReverseServer), Up(DnsServer)] + if system then [Taken(DnsSettings)] else []
  }

  ghost predicate NothingTaken(part: seq<Action>) { forall i :: 0 <= i < |part| ==> !part[i].Taken? }

  /** What each mode takes over. */
  ghost predicate Takes(mode: Mode, w: Takeover)
  {
    match w
    case ProxySettings => mode == Pac || mode == System
    case HostsFile => mode == Hosts
    case DnsSettings => mode == Dns(true)
  }

  lemma StartTakes(mode: Mode)
    ensures forall w :: Taken(w) in StartLog(mode) <==> Takes(mode, w)
  {
    match mode
    case Pac => assert StartLog(mode)[2] == Taken(ProxySettings);
    case System => assert StartLog(mode)[1] == Taken(ProxySettings);
    case Hosts => assert StartLog(mode)[1] == Taken(HostsFile);
    case Dns(system) => if system { assert StartLog(mode)[2] == Taken(DnsSettings); }
    case ProxyOnly =>
  }

  ghost predicate Once(list: seq<Action>, a: Action)
  {
    exists i :: 0 <= i < |list| && list[i] == a && forall j :: 0 <= j < |list| && list[j] == a ==> j == i
  }

  /** The teardown restores exactly what was taken, once and before it stops anything, and stops exactly the servers brought up, once. */
  ghost predicate Undoes(up: seq<Action>, down: seq<Action>)
  {
    && (forall w :: if Taken(w) in up then Once(down, RestoreTried(w)) else RestoreTried(w) !in down)
    && (forall s :: if Up(s) in up then Once(down, Down(s)) else Down(s) !in down)
    && forall i, j :: 0 <= i < |down| && 0 <= j < |down| && down[i].RestoreTried? && down[j].Down? ==> i < j
  }

  /** The plan of Stop holds a restore of what Start took, and a stop of what it brought up, and nothing else. */
  lemma PlanMembers(mode: Mode, a: Action)
    ensures a in Plan(mode) <==> (a.RestoreTried? && Taken(a.what) in StartLog(mode)) || (a.Down? && Up(a.server) in StartLog(mode))
  {
    var up, down := StartLog(mode), Plan(mode);
    match mode
    case ProxyOnly => assert down == [Down(ProxyServer)];
    case Pac => assert down == [RestoreTried(ProxySettings), Down(PacServer), Down(ProxyServer)];
    case System => assert down == [RestoreTried(ProxySettings), Down(ProxyServer)];
    case Hosts => assert down == [RestoreTried(HostsFile), Down(ReverseServer)];
    case Dns(system) =>
      if system { assert down == [RestoreTried(DnsSettings), Down(DnsServer), Down(ReverseServer)]; }
      else { assert up == [Up(ReverseServer), Up(DnsServer)] && down == [Down(DnsServer), Down(ReverseServer)]; }
  }

  lemma DistinctOnce(list: seq<Action>, a: Action)
    requires Distinct(list)
    ensures a in list <==> Once(list, a)
  {
  }

  /** For every mode the plan of Stop undoes what Start did. */
  lemma PlanUndoesStart(mode: Mode)
    ensures Undoes(StartLog(mode), Plan(mode))
  {
    hide Plan, StartLog, Once, Distinct;
    PlanStopsAll(mode);
    var up, down := StartLog(mode), Plan(mode);
    forall w ensures if Taken(w) in up then Once(down, RestoreTried(w)) else RestoreTried(w) !in down {
      PlanMembers(mode, RestoreTried(w));
      DistinctOnce(down, RestoreTried(w));
    }
    forall s ensures if Up(s) in up then Once(down, Down(s)) else Down(s) !in down {
      PlanMembers(mode, Down(s));
      DistinctOnce(down, Down(s));
    }
  }

  /** A Start that succeeds and the Stop after it, whatever fails in the Stop: everything taken is restored once, first, and every server brought up is stopped once. */
  method StartThenStop(e: Engine, fails: Point -> bool, prep: Preparation, stopFails: Action -> bool, noState: bool)
    returns (err: Option<StartError>, failed: Option<Action>, ghost up: seq<Action>, ghost down: seq<Action>)
    requires e.Valid() && !e.running
    modifies e
    ensures e.Valid() && !e.running
    ensures err == None ==> e.log == old(e.log) + up + down && Live(old(e.log) + up) == ServersOf(e.mode) && Undoes(up, down)
  {
    hide Live, Undoes, Plan, StartLog;
    err := e.Start(fails, prep);
    up, down, failed := [], [], None;
    if err.Some? { return; }
    up := StartLog(e.mode);
    failed := e.Stop(stopFails, noState);
    down := Plan(e.mode);
    PlanUndoesStart(e.mode);
  }

  // ----- which calls a mode makes -----

  predicate DnsPoint(system: bool, p: Point)
  {
    || p.StartReverse? || p.DnsConfig? || p.DnsForwarder? || p.BuildDns? || p.StartDns?
    || (system && (p.SystemDnsConfig? || p.PreflightDns? || p.ApplyDns?))
  }

  predicate ProxyPoint(mode: Mode, p: Point)
  {
    p.StartProxy? || (mode == Pac && (p.BuildPac? || p.StartPac?)) || (mode != ProxyOnly && p.ApplyProxy?)
  }

  /** The calls a direct preparation makes. */
  predicate DirectPoint(prep: Preparation, p: Point)
  {
    p.CheckCert? || (!prep.certInstalled && prep.autoInstall && p.InstallCert?) || p.PreflightHosts? || p.ApplyHosts?
  }

  /** Everything on the direct way works. */
  ghost predicate DirectWorks(fails: Point -> bool, prep: Preparation)
  {
    (prep.certInstalled || prep.autoInstall) && forall p :: DirectPoint(prep, p) ==> !fails(p)
  }

  predicate HelperWorks(fails: Point -> bool) { !fails(EnsureRootCa) && !fails(PrepareElevated) }

  /** The first thing that goes wrong on the direct way. */
  function DirectFailure(fails: Point -> bool, prep: Preparation): (r: Option<Point>)
    ensures r == None <==> DirectWorks(fails, prep)
    ensures r.Some? ==> r == Some(CertMissing) || (DirectPoint(prep, r.value) && fails(r.value))
  {
    if fails(CheckCert) then Some(CheckCert)
    else if !prep.certInstalled && !prep.autoInstall then Some(CertMissing)
    else if !prep.certInstalled && fails(InstallCert) then Some(InstallCert)
    else if fails(PreflightHosts) then Some(PreflightHosts)
    else if fails(ApplyHosts) then Some(ApplyHosts)
    else None
  }

  /** Hosts mode gets its changes made: by the helper when preferred; otherwise directly, or by the helper after a failure to retry. */
  ghost predicate CanPrepare(fails: Point -> bool, prep: Preparation)
  {
    if prep.preferHelper then HelperWorks(fails)
    else DirectWorks(fails, prep) || (prep.retry(DirectFailure(fails, prep).value) && HelperWorks(fails))
  }

  /** The same, call by call. */
  lemma PreparationMeans(fails: Point -> bool, prep: Preparation)
    ensures
      var direct := !fails(CheckCert) && (prep.certInstalled || (prep.autoInstall && !fails(InstallCert))) && !fails(PreflightHosts) && !fails(ApplyHosts);
      var helper := !fails(EnsureRootCa) && !fails(PrepareElevated);
      && (prep.preferHelper ==> (CanPrepare(fails, prep) <==> helper))
      && (!prep.preferHelper && direct ==> CanPrepare(fails, prep))
      && (!prep.preferHelper && !direct ==> DirectFailure(fails, prep).Some? && (CanPrepare(fails, prep) <==> helper && prep.retry(DirectFailure(fails, prep).value)))
  {
  }

  // ----- the DNS order -----

  /** In the new part of the log: DNS settings are touched only while the DNS server is up, and it goes down after an attempt only behind a restore. */
  ghost predicate DnsOrderKept(before: seq<Action>, log: seq<Action>)
  {
    && before <= log
    && (forall i :: |before| <= i < |log| && (log[i] == Taken(DnsSettings) || log[i] == TakeFailed(DnsSettings)) ==>
          DnsServer in Live(log[..i]))
    && forall i, k :: |before| <= i < k < |log| && (log[i] == Taken(DnsSettings) || log[i] == TakeFailed(DnsSettings)) && log[k] == Down(DnsServer) ==>
          RestoreTried(DnsSettings) in log[i..k]
  }

  lemma NoActions(log: seq<Action>)
    ensures DnsOrderKept(log, log) && log[|log|..] == []
  {
  }

  /** Actions that never touch the DNS settings keep the order, and are what the log has gained. */
  lemma PlainActions(before: seq<Action>, log: seq<Action>, part: seq<Action>)
    requires log == before + part
    requires forall i :: 0 <= i < |part| ==> part[i] != Taken(DnsSettings) && part[i] != TakeFailed(DnsSettings)
    ensures DnsOrderKept(before, log) && log[|before|..] == part
  {
    assert forall i :: |before| <= i < |log| ==> log[i] == part[i - |before|];
  }

  lemma DnsUpByThen(start: seq<Action>, log: seq<Action>)
    requires start <= log && |log| >= |start| + 2 && log[|start| + 1] == Up(DnsServer)
    ensures DnsServer in Live(log[..|start| + 2])
  {
    var n := |start|;
    assert log[..n + 2][..n + 1] == log[..n + 1] && log[..n + 2][n + 1] == Up(DnsServer);
  }

  lemma FailedDnsOrder(start: seq<Action>, log: seq<Action>)
    requires log == start + [Up(ReverseServer), Up(DnsServer), TakeFailed(DnsSettings), RestoreTried(DnsSettings), Down(DnsServer), Down(ReverseServer)]
    ensures DnsOrderKept(start, log)
  {
    var n := |start|;
    hide Live;
    DnsUpByThen(start, log);
    assert log[n + 2..n + 4][1] == RestoreTried(DnsSettings);
  }

  lemma TakenDnsOrder(start: seq<Action>, log: seq<Action>)
    requires log == start + [Up(ReverseServer), Up(DnsServer), Taken(DnsSettings)]
    ensures DnsOrderKept(start, log)
  {
    var n := |start|;
    hide Live;
    DnsUpByThen(start, log);
    assert log[n..][2] == Taken(DnsSettings);
  }

  // ----- the teardown -----

  /** What Stop does: the mode's restore first, then the servers in a fixed order. */
  function Plan(mode: Mode): seq<Action>
  {
    (if TakeoverOf(mode).Some? then [RestoreTried(TakeoverOf(mode).value)] else [])
    + (if PacServer in ServersOf(mode) then [Down(PacServer)] else [])
    + (if DnsServer in ServersOf(mode) then [Down(DnsServer)] else [])
    + (if ReverseServer in ServersOf(mode) then [Down(ReverseServer)] else [])
    + (if ProxyServer in ServersOf(mode) then [Down(ProxyServer)] else [])
  }

  predicate Bad(a: Action, fails: Action -> bool, noState: bool) { fails(a) && !(a.RestoreTried? && noState) }

  function FirstBad(plan: seq<Action>, fails: Action -> bool, noState: bool): Option<Action>
  {
    if plan == [] then None
    else
      var before, last := FirstBad(plan[..|plan| - 1], fails, noState), plan[|plan| - 1];
      if before.Some? then before else if Bad(last, fails, noState) then Some(last) else None
  }

  ghost function Stopped(plan: seq<Action>): set<Server> { set i | 0 <= i < |plan| && plan[i].Down? :: plan[i].server }

  /** It is the first failure of the plan that counts. */
  lemma {:induction false} FirstBadIsFirst(plan: seq<Action>, fails: Action -> bool, noState: bool)
    ensures
      var r := FirstBad(plan, fails, noState);
      && (r.None? <==> forall i :: 0 <= i < |plan| ==> !Bad(plan[i], fails, noState))
      && (r.Some? ==> exists i :: 0 <= i < |plan| && r.value == plan[i] && Bad(plan[i], fails, noState)
                                 && forall k :: 0 <= k < i ==> !Bad(plan[k], fails, noState))
    ensures forall a :: Bad(a, fails, noState) <==> fails(a) && (a.RestoreTried? ==> !noState)
  {
    if plan != [] {
      var init := plan[..|plan| - 1];
      FirstBadIsFirst(init, fails, noState);
      var r := FirstBad(init, fails, noState);
      if r.Some? {
        var i :| 0 <= i < |init| && r.value == init[i] && Bad(init[i], fails, noState) && forall k :: 0 <= k < i ==> !Bad(init[k], fails, noState);
        assert plan[i] == init[i];
      }
    }
  }

  lemma NothingBad(fails: Action -> bool, noState: bool) ensures FirstBad([], fails, noState) == None {}

  /** Every mode holds a server that Stop looks for. */
  lemma SomeServer(mode: Mode)
    ensures ProxyServer in ServersOf(mode) || ReverseServer in ServersOf(mode) || DnsServer in ServersOf(mode)
  {
  }

  /** Stop attempts the mode's restore once, before anything else, and stops each of the mode's servers exactly once. */
  lemma PlanStopsAll(mode: Mode)
    ensures Stopped(Plan(mode)) == ServersOf(mode) && Distinct(Plan(mode))
    ensures TakeoverOf(mode).Some? ==> Plan(mode) != [] && Plan(mode)[0] == RestoreTried(TakeoverOf(mode).value)
    ensures forall i :: 0 <= i < |Plan(mode)| ==> Plan(mode)[i].Down? || (i == 0 && Plan(mode)[i].RestoreTried?)
  {
    var plan := Plan(mode);
    match mode
    case ProxyOnly => assert plan == [Down(ProxyServer)]; assert plan[0].server in Stopped(plan);
    case Pac =>
      assert plan == [RestoreTried(ProxySettings), Down(PacServer), Down(ProxyServer)];
      assert plan[1].server in Stopped(plan) && plan[2].server in Stopped(plan);
    case System =>
      assert plan == [RestoreTried(ProxySettings), Down(ProxyServer)];
      assert plan[1].server in Stopped(plan);
    case Hosts =>
      assert plan == [RestoreTried(HostsFile), Down(ReverseServer)];
      assert plan[1].server in Stopped(plan);
    case Dns(system) =>
      if system {
        assert plan == [RestoreTried(DnsSettings), Down(DnsServer), Down(ReverseServer)];
        assert plan[1].server in Stopped(plan) && plan[2].server in Stopped(plan);
      } else {
        assert plan == [Down(DnsServer), Down(ReverseServer)];
        assert plan[0].server in Stopped(plan) && plan[1].server in Stopped(plan);
      }
  }
}

/** Any number of Stop calls at once on a started engine, in every interleaving. */
module ConcurrentStop {
  import opened Basics
  import opened Lifecycle

  datatype Phase =
    | Calling
    | Tearing(mine: set<Server>, stage: nat, failed: Option<Action>)
    | Returned(failed: Option<Action>)

  const STAGES := 5

  /** What the stages of a teardown come to: the restore of the mode, then a stop of each server the call captured. */
  function ActionAt(mode: Mode, mine: set<Server>, stage: nat): Option<Action>
  {
    if stage == 0 then (match TakeoverOf(mode) case None => None case Some(what) => Some(RestoreTried(what)))
    else if stage == 1 then (if PacServer in mine then Some(Down(PacServer)) else None)
    else if stage == 2 then (if DnsServer in mine then Some(Down(DnsServer)) else None)
    else if stage == 3 then (if ReverseServer in mine then Some(Down(ReverseServer)) else None)
    else if stage == 4 then (if ProxyServer in mine then Some(Down(ProxyServer)) else None)
    else None
  }

  function DoneBy(mode: Mode, mine: set<Server>, stage: nat): seq<Action>
  {
    if stage == 0 then []
    else DoneBy(mode, mine, stage - 1) + match ActionAt(mode, mine, stage - 1) case None => [] case Some(a) => [a]
  }

  /** With the mode's servers captured, the stages are the mode's plan. */
  lemma StagesArePlan(mode: Mode)
    ensures DoneBy(mode, ServersOf(mode), STAGES) == Plan(mode)
  {
    var mine := ServersOf(mode);
    assert DoneBy(mode, mine, 0) == [];
    assert DoneBy(mode, mine, 1) == if TakeoverOf(mode).Some? then [RestoreTried(TakeoverOf(mode).value)] else [];
    assert DoneBy(mode, mine, 2) == DoneBy(mode, mine, 1) + if PacServer in mine then [Down(PacServer)] else [];
    assert DoneBy(mode, mine, 3) == DoneBy(mode, mine, 2) + if DnsServer in mine then [Down(DnsServer)] else [];
    assert DoneBy(mode, mine, 4) == DoneBy(mode, mine, 3) + if ReverseServer in mine then [Down(ReverseServer)] else [];
  }

  lemma {:induction false} StagesGrow(mode: Mode, mine: set<Server>, n: nat, m: nat)
    requires n <= m
    ensures DoneBy(mode, mine, n) <= DoneBy(mode, mine, m)
  {
    hide ActionAt;
    if n < m { StagesGrow(mode, mine, n, m - 1); }
  }

  /** One action of a teardown and whether it failed; a restore may also find no state. */
  datatype Deed = Deed(action: Action, failed: bool, noState: bool)

  datatype Machine = Machine(mode: Mode, held: set<Server>, running: bool, calls: map<nat, Phase>, deeds: seq<Deed>,
                           owner: Option<nat>, lastErr: Option<Action>)

  datatype Step = Call(id: nat) | Enter(id: nat) | Act(id: nat, failed: bool, noState: bool) | Return(id: nat)

  predicate Counts(d: Deed) { d.failed && !(d.action.RestoreTried? && d.noState) }

  /** The locked swap, one teardown action, or the final assignment, of one call. */
  function Next(s: Machine, step: Step): Machine
  {
    if step.Call? then (if step.id in s.calls then s else s.(calls := s.calls[step.id := Calling]))
    else if step.id !in s.calls then s
    else match (step, s.calls[step.id])
      case (Enter(id), Calling) =>
        if s.held * {ProxyServer, ReverseServer, DnsServer} == {} then
          s.(held := {}, running := false, calls := s.calls[id := Returned(None)])
        else
          s.(held := {}, running := false, calls := s.calls[id := Tearing(s.held, 0, None)], owner := Some(id))
      case (Act(id, failed, noState), Tearing(mine, stage, first)) =>
        if stage >= STAGES then s
        else (match ActionAt(s.mode, mine, stage)
          case None => s.(calls := s.calls[id := Tearing(mine, stage + 1, first)])
          case Some(a) =>
            var deed := Deed(a, failed, noState);
            s.(deeds := s.deeds + [deed],
               calls := s.calls[id := Tearing(mine, stage + 1, if first.None? && Counts(deed) then Some(a) else first)]))
      case (Return(id), Tearing(_, stage, first)) =>
        if stage < STAGES then s else s.(calls := s.calls[id := Returned(first)], lastErr := first)
      case _ => s
  }

  function Run(s: Machine, steps: seq<Step>): Machine
    decreases |steps|
  {
    if steps == [] then s else Next(Run(s, steps[..|steps| - 1]), steps[|steps| - 1])
  }

  /** A started engine with no Stop called yet. */
  function Started(mode: Mode): Machine { Machine(mode, ServersOf(mode), true, map[], [], None, None) }

  function Actions(deeds: seq<Deed>): seq<Action> { seq(|deeds|, i requires 0 <= i < |deeds| => deeds[i].action) }

  function FirstFailed(deeds: seq<Deed>): Option<Action>
  {
    if deeds == [] then None
    else
      var before := FirstFailed(deeds[..|deeds| - 1]);
      if before.None? && Counts(deeds[|deeds| - 1]) then Some(deeds[|deeds| - 1].action) else before
  }

  ghost predicate Ownership(s: Machine)
  {
    match s.owner
    case None =>
      s.held == ServersOf(s.mode) && s.running && s.deeds == [] && (forall id :: id in s.calls ==> s.calls[id] == Calling)
    case Some(o) =>
      && s.held == {} && !s.running && o in s.calls
      && (forall id :: id in s.calls && id != o ==> s.calls[id] == Calling || s.calls[id] == Returned(None))
      && (match s.calls[o]
          case Calling => false
          case Tearing(mine, stage, failed) =>
            && mine == ServersOf(s.mode) && stage <= STAGES
            && Actions(s.deeds) == DoneBy(s.mode, mine, stage) && failed == FirstFailed(s.deeds)
          case Returned(failed) =>
            Actions(s.deeds) == Plan(s.mode) && failed == FirstFailed(s.deeds) && s.lastErr == failed)
  }

  lemma StepKeepsOwnership(s: Machine, step: Step)
    requires Ownership(s)
    ensures Ownership(Next(s, step)) && Next(s, step).mode == s.mode
    ensures s.owner.Some? ==> Next(s, step).owner == s.owner
  {
    hide Plan, TakeoverOf, ActionAt;
    StagesArePlan(s.mode);
    if step.Enter? && step.id in s.calls && s.calls[step.id].Calling? && s.owner.None? {
      SomeServer(s.mode);
      var looked := s.held * {ProxyServer, ReverseServer, DnsServer};
      assert ProxyServer in looked || ReverseServer in looked || DnsServer in looked;
    }
    if step.Act? && s.owner == Some(step.id) && s.calls[step.id].Tearing? && s.calls[step.id].stage < STAGES {
      var a := ActionAt(s.mode, s.calls[step.id].mine, s.calls[step.id].stage);
      if a.Some? {
        var deed := Deed(a.value, step.failed, step.noState);
        assert (s.deeds + [deed])[..|s.deeds|] == s.deeds;
        assert Actions(s.deeds + [deed]) == Actions(s.deeds) + [a.value];
      }
    }
  }

  lemma {:induction false} RunKeepsOwnership(mode: Mode, steps: seq<Step>)
    ensures Ownership(Run(Started(mode), steps)) && Run(Started(mode), steps).mode == mode
    decreases |steps|
  {
    hide Next, Plan;
    if steps != [] {
      RunKeepsOwnership(mode, steps[..|steps| - 1]);
      StepKeepsOwnership(Run(Started(mode), steps[..|steps| - 1]), steps[|steps| - 1]);
    }
  }

  /**
   * Under every interleaving of any number of Stop calls: what has been done is a beginning
   * of the mode's teardown, so nothing happens twice; every call but one returns nothing; and
   * once all calls have returned, the whole teardown was done, once, whatever failed on the
   * way, and its owner returned the first failure.
   */
  lemma ConcurrentStops(mode: Mode, steps: seq<Step>)
    ensures
      var s := Run(Started(mode), steps);
      && Actions(s.deeds) <= Plan(mode) && Distinct(Actions(s.deeds))
      && (forall id :: id in s.calls && s.owner != Some(id) ==> s.calls[id] == Calling || s.calls[id] == Returned(None))
      && ((exists id :: id in s.calls && s.calls[id] != Calling) ==> s.owner.Some? && s.owner.value in s.calls)
      && ((exists id :: id in s.calls) && (forall id :: id in s.calls ==> s.calls[id].Returned?) ==>
            && s.owner.Some? && s.owner.value in s.calls && s.calls[s.owner.value] == Returned(FirstFailed(s.deeds))
            && Actions(s.deeds) == Plan(mode) && Undoes(StartLog(mode), Actions(s.deeds)) && !s.running && s.lastErr == FirstFailed(s.deeds)
            && forall id :: id in s.calls && id != s.owner.value ==> s.calls[id] == Returned(None))
  {
    hide Run, Started, Plan, FirstFailed, DoneBy, Undoes, StartLog;
    RunKeepsOwnership(mode, steps);
    PlanStopsAll(mode);
    StagesArePlan(mode);
    PlanUndoesStart(mode);
    var s := Run(Started(mode), steps);
    if s.owner.Some? && s.calls[s.owner.value].Tearing? { StagesGrow(mode, ServersOf(mode), s.calls[s.owner.value].stage, STAGES); }
    assert Actions(s.deeds) <= Plan(mode);
  }

  /** The first counted failure really is the first. */
  lemma {:induction false} FirstFailedIsFirst(deeds: seq<Deed>)
    ensures FirstFailed(deeds).None? <==> forall i :: 0 <= i < |deeds| ==> !Counts(deeds[i])
    ensures FirstFailed(deeds).Some? ==>
      exists i :: 0 <= i < |deeds| && FirstFailed(deeds).value == deeds[i].action && Counts(deeds[i])
        && forall k :: 0 <= k < i ==> !Counts(deeds[k])
    ensures forall d :: Counts(d) <==> d.failed && (d.action.RestoreTried? ==> !d.noState)
  {
    if deeds != [] {
      var init := deeds[..|deeds| - 1];
      FirstFailedIsFirst(init);
      if FirstFailed(init).Some? {
        var i :| 0 <= i < |init| && FirstFailed(init).value == init[i].action && Counts(init[i]) && forall k :: 0 <= k < i ==> !Counts(init[k]);
        assert deeds[i] == init[i];
      }
    }
  }
}
