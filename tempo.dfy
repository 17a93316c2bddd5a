/**
 * The Tempo root object: its configuration, the auth hooks it selects, and the inited
 * set of the lifecycle orchestrator, with the methods that update them in place.
 */
module TempoApp {
  import opened Wrappers
  import opened Registry
  import opened Auth
  import opened Lifecycle

  /** The part of the transport configuration the root object writes. */
  datatype ServerConfig = ServerConfig(
    grpcMiddleware: seq<UnaryInterceptor>,
    grpcStreamMiddleware: seq<StreamInterceptor>)

  /** The root configuration: the target module, the auth switch and the server settings. */
  datatype Config = Config(target: Name, authEnabled: bool, server: ServerConfig)

  /**
   * The configuration after auth selection: each interceptor list holds exactly one
   * entry, the header interceptor when auth is enabled and the fake one when it is not;
   * everything else is kept.
   */
  function WithAuth(cfg: Config): (c: Config)
    ensures c.target == cfg.target && c.authEnabled == cfg.authEnabled
    ensures |c.server.grpcMiddleware| == 1 && |c.server.grpcStreamMiddleware| == 1
    ensures cfg.authEnabled ==>
      c.server.grpcMiddleware[0] == ServerUserHeaderInterceptor
      && c.server.grpcStreamMiddleware[0] == StreamServerUserHeaderInterceptor
    ensures !cfg.authEnabled ==>
      c.server.grpcMiddleware[0] == FakeGrpcAuthUnaryMiddleware
      && c.server.grpcStreamMiddleware[0] == FakeGrpcAuthStreamMiddleware
  {
    var b := Select(cfg.authEnabled);
    cfg.(server := cfg.server.(grpcMiddleware := [b.unary], grpcStreamMiddleware := [b.stream]))
  }

  class Tempo {
    var cfg: Config
    var httpAuthMiddleware: Option<HttpMiddleware>

    /** The module table the orchestrator consults; it never changes. */
    const registry: Table

    /** The modules initialised so far. */
    var inited: set<Name>

    /** Every module that reached the "initialising" step, in order, over the object's life. */
    ghost var initTrace: seq<Name>

    /** Every module whose stop action was invoked, in order, over the object's life. */
    ghost var stopTrace: seq<Name>

    ghost predicate Valid()
    {
      Acyclic(registry)
    }

    constructor (cfg: Config, registry: Table)
      requires Acyclic(registry)
      ensures Valid()
      ensures this.cfg == cfg && this.registry == registry && httpAuthMiddleware == None
      ensures inited == {} && initTrace == [] && stopTrace == []
    {
      this.cfg := cfg;
      this.registry := registry;
      httpAuthMiddleware := None;
      inited := {};
      initTrace := [];
      stopTrace := [];
    }

    /** New: construct, select the auth hooks, then initialise the target; on error there is no object. */
    static method New(cfg: Config, registry: Table) returns (t: Tempo?, err: Option<InitError>)
      requires Acyclic(registry)
      ensures err == InitFrom(registry, {}, cfg.target).err
      ensures t != null <==> err.None?
      ensures t != null ==>
        && fresh(t) && t.Valid() && t.registry == registry
        && t.cfg == WithAuth(cfg) && t.httpAuthMiddleware == Some(Select(cfg.authEnabled).http)
        && t.inited == InitFrom(registry, {}, cfg.target).inited
        && t.initTrace == InitFrom(registry, {}, cfg.target).events
        && t.stopTrace == []
    {
      var tempo := new Tempo(cfg, registry);
      tempo.SetupAuthMiddleware();
      err := tempo.InitModule(cfg.target);
      if err.Some? {
        return null, err;
      }
      return tempo, None;
    }

    /** setupAuthMiddleware: install the real hooks when auth is enabled, the fake ones otherwise. */
    method SetupAuthMiddleware()
      modifies this`cfg, this`httpAuthMiddleware
      ensures cfg == WithAuth(old(cfg))
      ensures httpAuthMiddleware == Some(Select(cfg.authEnabled).http)
    {
      if cfg.authEnabled {
        cfg := cfg.(server := cfg.server.(
          grpcMiddleware := [ServerUserHeaderInterceptor],
          grpcStreamMiddleware := [StreamServerUserHeaderInterceptor]));
        httpAuthMiddleware := Some(AuthenticateUser);
      } else {
        cfg := cfg.(server := cfg.server.(
          grpcMiddleware := [FakeGrpcAuthUnaryMiddleware],
          grpcStreamMiddleware := [FakeGrpcAuthStreamMiddleware]));
        httpAuthMiddleware := Some(FakeHttpAuthMiddleware);
      }
    }

    /**
     * init(m): depth-first, memoised by the inited set; the dependencies first, in
     * declared order, stopping at the first error; then m's own init action, whose
     * error is wrapped with m's name; on success m is recorded as inited.
     */
    method InitModule(m: Name) returns (err: Option<InitError>)
      requires Valid()
      modifies this`inited, this`initTrace
      ensures var r := InitFrom(registry, old(inited), m);
        inited == r.inited && initTrace == old(initTrace) + r.events && err == r.err
      ensures m in old(inited) ==>
        inited == old(inited) && initTrace == old(initTrace) && err.None?
      decreases registry.rank(m), 1
    {
      if m in inited {
        return None;
      }
      ghost var t0 := initTrace;
      ghost var whole := InitDeps(registry, inited, m, 0, []);
      ghost var done: seq<Name> := [];
      var deps := Deps(registry, m);
      for i := 0 to |deps|
        invariant whole == InitDeps(registry, inited, m, i, done)
        invariant initTrace == t0 + done
      {
        ghost var step := InitFrom(registry, inited, deps[i]);
        var e := InitModule(deps[i]);
        if e.Some? {
          return e;
        }
        done := done + step.events;
      }
      initTrace := initTrace + [m];
      match InitAction(registry, m)
      case Some(Fails(cause)) =>
        return Some(InitError(m, cause));
      case _ =>
        inited := inited + {m};
        return None;
    }

    /**
     * stop(m): a no-op unless m is inited; otherwise m leaves the inited set, its
     * dependencies are stopped in declared order, and then its own stop action runs,
     * if it has one. A failing stop action is logged and swallowed.
     */
    method StopModule(m: Name)
      requires Valid()
      modifies this`inited, this`stopTrace
      ensures var r := StopFrom(registry, old(inited), m);
        inited == r.inited && stopTrace == old(stopTrace) + r.events
      ensures m !in old(inited) ==> inited == old(inited) && stopTrace == old(stopTrace)
      decreases registry.rank(m), 1
    {
      if m !in inited {
        return;
      }
      inited := inited - {m};
      ghost var t0 := stopTrace;
      ghost var whole := StopDeps(registry, inited, m, 0, []);
      ghost var done: seq<Name> := [];
      var deps := Deps(registry, m);
      for i := 0 to |deps|
        invariant whole == StopDeps(registry, inited, m, i, done)
        invariant stopTrace == t0 + done
      {
        ghost var step := StopFrom(registry, inited, deps[i]);
        StopModule(deps[i]);
        done := done + step.events;
      }
      match StopAction(registry, m)
      case None =>
      case Some(_) =>
        // The outcome, success or error, changes nothing further: an error is only logged.
        stopTrace := stopTrace + [m];
    }

    /** Stop: tear down the target module (the transport shutdown before it is not modelled). */
    method Stop()
      requires Valid()
      modifies this`inited, this`stopTrace
      ensures var r := StopFrom(registry, old(inited), cfg.target);
        inited == r.inited && stopTrace == old(stopTrace) + r.events
    {
      StopModule(cfg.target);
    }
  }
}
