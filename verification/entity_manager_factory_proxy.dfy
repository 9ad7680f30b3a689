/** The wrapper registry and refresh logic of `EntityManagerFactoryProxy`,
    with reflection and Hibernate replaced by abstract call outcomes.

    A wrapper object is created only by `getWrapper`, stored under exactly one
    key of the process-wide map and never removed, so the key identifies the
    object: a `Handle` is that key, and mutating the object is updating the
    map entry under it. */
module EntityManagerFactoryProxy {
  import opened JavaRuntime
  import opened HibernateVersion

  /** An `EntityManagerFactory` instance; only its identity matters here. */
  datatype Factory = Factory(id: nat)

  /** A `PersistenceUnitInfo` descriptor; only its identity matters here. */
  datatype UnitInfo = UnitInfo(id: nat)

  /** The cached `Map<?,?>` of persistence properties. */
  type Properties = map<string, string>

  /** The fields of one wrapper object; `None` is Java's `null`. A wrapper
      fresh from `getWrapper` has all four fields null until `proxy` fills
      them in. */
  datatype Wrapper = Wrapper(
    current: Option<Factory>,
    unitName: Option<string>,
    info: Option<UnitInfo>,
    properties: Option<Properties>)

  const Uninitialised: Wrapper := Wrapper(None, None, None, None)

  /** The static `proxiedFactories` map, persistence unit name to wrapper. */
  type Registry = map<string, Wrapper>

  /** A reference to the wrapper object stored under `key`. */
  datatype Handle = Handle(key: string)

  /** The dynamic proxy `proxy` hands out: its invocation handler forwards
      every call through the wrapper it was created on. */
  datatype ForwardingProxy = ForwardingProxy(handle: Handle)

  datatype Lookup = Lookup(registry: Registry, handle: Handle)

  /** `getWrapper(persistenceUnitName)`: the wrapper stored under the name,
      created empty and stored first if the name is new. */
  function GetWrapper(registry: Registry, unitName: string): (r: Lookup)
    ensures r.handle == Handle(unitName) && r.handle.key in r.registry
    ensures r.registry.Keys == registry.Keys + {unitName}
    ensures forall k :: k in registry ==> k in r.registry && r.registry[k] == registry[k]
    ensures unitName !in registry ==> r.registry[unitName] == Uninitialised
  {
    var updated := if unitName !in registry then registry[unitName := Uninitialised] else registry;
    Lookup(updated, Handle(unitName))
  }

  datatype ProxyResult = ProxyResult(registry: Registry, proxy: Call<ForwardingProxy>)

  /** `proxy(factory, persistenceUnitName, info, properties)` on the wrapper
      behind `handle`: the four fields are assigned first; building the
      dynamic proxy then dereferences `currentInstance`, so a null factory
      ends in a `NullPointerException` with the fields already assigned. */
  function Proxy(registry: Registry, handle: Handle, factory: Option<Factory>,
                 unitName: Option<string>, info: Option<UnitInfo>,
                 properties: Option<Properties>): (r: ProxyResult)
    requires handle.key in registry
    ensures r.registry.Keys == registry.Keys
    ensures r.registry[handle.key] == Wrapper(factory, unitName, info, properties)
    ensures forall k :: k in registry && k != handle.key ==> r.registry[k] == registry[k]
    ensures r.proxy.Returned? <==> factory.Some?
    ensures r.proxy.Returned? ==> r.proxy.value.handle == handle
    ensures r.proxy.Threw? ==> r.proxy.thrown == Exception
  {
    var updated := registry[handle.key := Wrapper(factory, unitName, info, properties)];
    var proxy := if factory.Some? then Returned(ForwardingProxy(handle)) else Threw(Exception);
    ProxyResult(updated, proxy)
  }

  /** One call through the proxy: the handler calls `method.invoke` on
      whatever `currentInstance` holds at call time. A null instance makes
      `Method.invoke` throw `NullPointerException`; a throwable from the
      instance comes back wrapped in `InvocationTargetException`, which the
      proxy rethrows as `UndeclaredThrowableException`. */
  function Forward<T>(registry: Registry, p: ForwardingProxy, op: Factory -> Call<T>): (r: Call<T>)
    requires p.handle.key in registry
    ensures r.Returned? ==> registry[p.handle.key].current.Some?
    ensures r.Returned? ==> op(registry[p.handle.key].current.value) == Returned(r.value)
    ensures registry[p.handle.key].current.None? ==> r == Threw(Exception)
    ensures r.Threw? && registry[p.handle.key].current.Some? ==>
      var target := op(registry[p.handle.key].current.value);
      target.Threw? && r.thrown == Undeclared(target.thrown)
  {
    match registry[p.handle.key].current
    case None => Threw(Exception)
    case Some(instance) => ThroughProxy(op(instance))
  }

  /** A call on the target as its caller sees it through the proxy. */
  function ThroughProxy<T>(c: Call<T>): Call<T> {
    match c
    case Returned(v) => Returned(v)
    case Threw(t) => Threw(Undeclared(t))
  }

  // ---------------------------------------------------------------------------
  // Rebuilding one wrapper

  /** The external call that builds a fresh factory from the cached fields. */
  datatype BuildRequest =
      /** `Persistence.createEntityManagerFactory(persistenceUnitName, properties)` */
    | CreateByName(unitName: Option<string>, properties: Option<Properties>)
      /** `Bootstrap.getEntityManagerFactoryBuilder(info, properties).build()` */
    | BootstrapBuild(info: UnitInfo, properties: Option<Properties>)
      /** `new Ejb3Configuration()`, `configure(info, properties)`, `buildEntityManagerFactory()` */
    | ConfigureWithInfo(info: UnitInfo, properties: Option<Properties>)
      /** `new Ejb3Configuration()`, `configure(persistenceUnitName, properties)`, `buildEntityManagerFactory()` */
    | ConfigureWithName(unitName: Option<string>, properties: Option<Properties>)

  /** The collaborators a refresh calls, as outcomes. Both receive the key of
      the wrapper being refreshed, so different wrappers may see different
      outcomes; an outcome depends on nothing else, so one rebuild cannot
      affect another through Hibernate's static state. An `Error` outcome
      stands for an `Error` thrown directly (class loading, instantiation,
      the factory call itself), not for one raised inside a reflectively
      invoked method, which arrives as `InvocationTargetException`.
      `deregister` is `EntityManagerFactoryRegistry.INSTANCE
      .removeEntityManagerFactory(persistenceUnitName, currentInstance)`
      including the class loading and field access around it. */
  datatype Environment = Environment(
    deregister: (string, Option<string>, Option<Factory>) -> Call<()>,
    build: (string, BuildRequest) -> Call<Factory>)

  /** The build call each path makes for a wrapper: the descriptor form when
      `info` is not null, the name form otherwise. */
  function BuildRequestFor(strategy: Strategy, w: Wrapper): (r: BuildRequest)
    ensures r.properties == w.properties
    ensures (r.BootstrapBuild? || r.ConfigureWithInfo?) <==> w.info.Some?
    ensures (r.BootstrapBuild? || r.ConfigureWithInfo?) ==> w.info == Some(r.info)
    ensures (r.CreateByName? || r.ConfigureWithName?) ==> r.unitName == w.unitName
    ensures (r.ConfigureWithInfo? || r.ConfigureWithName?) <==> strategy == Legacy
  {
    match (strategy, w.info)
    case (Modern, None) => CreateByName(w.unitName, w.properties)
    case (Modern, Some(info)) => BootstrapBuild(info, w.properties)
    case (Legacy, Some(info)) => ConfigureWithInfo(info, w.properties)
    case (Legacy, None) => ConfigureWithName(w.unitName, w.properties)
  }

  /** `refreshProxiedFactoryVersion43OrGreater()`. Without `info` the factory
      call is not guarded, so its exception reaches the refresh loop; with
      `info` an exception is caught and logged. Either way `currentInstance`
      is assigned only a successfully built factory. */
  function RefreshModern(w: Wrapper, key: string, env: Environment): (r: Call<Wrapper>)
    ensures var built := env.build(key, BuildRequestFor(Modern, w));
      && (built.Returned? ==> r == Returned(w.(current := Some(built.value))))
      && (built.Threw? ==> r == Returned(w) || r == Threw(built.thrown))
      && (built.Threw? && w.info.None? ==> r == Threw(built.thrown))
    ensures r.Threw? && !r.Escapes() ==> w.info.None?
  {
    var built := env.build(key, BuildRequestFor(Modern, w));
    match built
    case Returned(f) => Returned(w.(current := Some(f)))
    case Threw(t) =>
      if w.info.Some? && t.IsException() then Returned(w) else Threw(t)
  }

  /** `buildFreshEntityManagerFactory()`: configure an `Ejb3Configuration`
      from `(info, properties)` or `(persistenceUnitName, properties)` and
      build; an exception is logged and swallowed. */
  function BuildFresh(w: Wrapper, key: string, env: Environment): (r: Call<Wrapper>)
    ensures r.Returned? || r.Escapes()
    ensures var built := env.build(key, BuildRequestFor(Legacy, w));
      && (built.Returned? ==> r == Returned(w.(current := Some(built.value))))
      && (built.Threw? ==> r == Returned(w) || r == Threw(built.thrown))
  {
    match env.build(key, BuildRequestFor(Legacy, w))
    case Returned(f) => Returned(w.(current := Some(f)))
    case Threw(t) => if t.IsException() then Returned(w) else Threw(t)
  }

  /** `refreshProxiedFactory()`: best-effort deregistration of the current
      instance, whose exception is logged and ignored, then a fresh build. */
  function RefreshLegacy(w: Wrapper, key: string, env: Environment): (r: Call<Wrapper>)
    ensures var cleared := env.deregister(key, w.unitName, w.current);
      && (cleared.Escapes() ==> r == Threw(cleared.thrown))
      && (!cleared.Escapes() ==> r == BuildFresh(w, key, env))
  {
    match env.deregister(key, w.unitName, w.current)
    case Threw(t) => if t.IsException() then BuildFresh(w, key, env) else Threw(t)
    case Returned(_) => BuildFresh(w, key, env)
  }

  // ---------------------------------------------------------------------------
  // What one refresh does to one wrapper, stated without the control flow

  /** True iff refreshing `w` throws something no `catch (Exception e)`
      catches, which ends the whole refresh. */
  predicate Aborts(strategy: Strategy, w: Wrapper, key: string, env: Environment) {
    || (strategy == Legacy && env.deregister(key, w.unitName, w.current).Escapes())
    || env.build(key, BuildRequestFor(strategy, w)).Escapes()
  }

  /** The instance a refresh leaves installed: the freshly built factory when
      the build call returned, and the previous one otherwise. */
  function Installed(strategy: Strategy, w: Wrapper, key: string, env: Environment): Option<Factory> {
    var built := env.build(key, BuildRequestFor(strategy, w));
    if !Aborts(strategy, w, key, env) && built.Returned? then Some(built.value) else w.current
  }

  function RefreshedEntry(strategy: Strategy, w: Wrapper, key: string, env: Environment): Wrapper {
    w.(current := Installed(strategy, w, key, env))
  }

  /** Every wrapper refreshed, none aborting. */
  function Refreshed(registry: Registry, strategy: Strategy, env: Environment): (r: Registry)
    ensures r.Keys == registry.Keys
    ensures forall k :: k in registry ==> r[k] == RefreshedEntry(strategy, registry[k], k, env)
  {
    map k | k in registry :: RefreshedEntry(strategy, registry[k], k, env)
  }

  /** One pass of the loop body in `refreshProxiedFactories` for the wrapper
      under `key` (inside `synchronized (wrapper.reloadLock)`). */
  function Rebuild(strategy: Strategy, w: Wrapper, key: string, env: Environment): (r: Call<Wrapper>)
    ensures r.Escapes() <==> Aborts(strategy, w, key, env)
    ensures !Aborts(strategy, w, key, env) ==>
      (if r.Returned? then r.value else w) == RefreshedEntry(strategy, w, key, env)
  {
    match strategy
    case Modern => RefreshModern(w, key, env)
    case Legacy => RefreshLegacy(w, key, env)
  }

  /** Loop state of `refreshProxiedFactories`: the keys not yet visited are
      untouched, every visited wrapper was refreshed without aborting. */
  ghost predicate Progress(strategy: Strategy, registry: Registry, refreshed: Registry,
                           remaining: set<string>, env: Environment)
  {
    && remaining <= registry.Keys
    && refreshed.Keys == registry.Keys
    && (forall k :: k in remaining ==> refreshed[k] == registry[k])
    && (forall k :: k in registry && k !in remaining ==>
          !Aborts(strategy, registry[k], k, env) &&
          refreshed[k] == RefreshedEntry(strategy, registry[k], k, env))
  }

  /** Visiting one more wrapper without aborting keeps the loop state. */
  lemma ProgressStep(strategy: Strategy, registry: Registry, refreshed: Registry,
                     remaining: set<string>, env: Environment, key: string)
    requires Progress(strategy, registry, refreshed, remaining, env)
    requires key in remaining && !Aborts(strategy, registry[key], key, env)
    ensures Progress(strategy, registry, refreshed[key := RefreshedEntry(strategy, registry[key], key, env)],
                     remaining - {key}, env)
  {
  }

  /** Whatever the loop state, each wrapper is untouched or refreshed. */
  lemma ProgressPartial(strategy: Strategy, registry: Registry, refreshed: Registry,
                        remaining: set<string>, env: Environment)
    requires Progress(strategy, registry, refreshed, remaining, env)
    ensures forall k :: k in registry ==>
      refreshed[k] == registry[k] || refreshed[k] == RefreshedEntry(strategy, registry[k], k, env)
  {
  }

  /** With every key visited, every wrapper is refreshed. */
  lemma ProgressDone(strategy: Strategy, registry: Registry, refreshed: Registry, env: Environment)
    requires Progress(strategy, registry, refreshed, {}, env)
    ensures refreshed == Refreshed(registry, strategy, env)
    ensures forall k :: k in registry ==> !Aborts(strategy, registry[k], k, env)
  {
  }

  /** `refreshProxiedFactories()`: probe the version once, then rebuild every
      wrapper with the chosen path, in the map's (unspecified) iteration
      order. An exception from one wrapper is printed and the loop goes on;
      an `Error` escapes and ends the refresh, reported as `!completed`. */
  method RefreshProxiedFactories(registry: Registry, version: string, env: Environment)
    returns (refreshed: Registry, completed: bool)
    ensures refreshed.Keys == registry.Keys
    ensures completed <==>
      forall k :: k in registry ==> !Aborts(DetectStrategy(version).strategy, registry[k], k, env)
    ensures completed ==> refreshed == Refreshed(registry, DetectStrategy(version).strategy, env)
    ensures forall k :: k in registry ==>
      refreshed[k] == registry[k] ||
      refreshed[k] == RefreshedEntry(DetectStrategy(version).strategy, registry[k], k, env)
  {
    var strategy := DetectStrategy(version).strategy;
    refreshed := registry;
    completed := true;
    var remaining := registry.Keys;
    while remaining != {}
      invariant Progress(strategy, registry, refreshed, remaining, env)
      decreases remaining
    {
      var key :| key in remaining;
      var w := refreshed[key];
      var outcome := Rebuild(strategy, w, key, env);
      if outcome.Escapes() {
        ProgressPartial(strategy, registry, refreshed, remaining, env);
        completed := false;
        return;
      }
      // an exception was printed and the wrapper left as it was
      var next := if outcome.Returned? then outcome.value else w;
      ProgressStep(strategy, registry, refreshed, remaining, env, key);
      refreshed := refreshed[key := next];
      remaining := remaining - {key};
    }
    ProgressDone(strategy, registry, refreshed, env);
    ProgressPartial(strategy, registry, refreshed, remaining, env);
  }
}
