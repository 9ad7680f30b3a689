/** Properties of the wrapper registry that relate several operations: runs
    of registrations, bindings and refreshes, and what a forwarded call
    reaches after them. */
module ProxyProperties {
  import opened JavaRuntime
  import opened HibernateVersion
  import opened EntityManagerFactoryProxy

  // ---------------------------------------------------------------------------
  // Registration

  /** A second `getWrapper` with the same name hands back the same wrapper
      and leaves the map as the first call left it. */
  lemma GetWrapperIdempotent(registry: Registry, unitName: string)
    ensures var first := GetWrapper(registry, unitName);
      GetWrapper(first.registry, unitName) == first
  {
  }

  /** The map after `getWrapper` has been called with each name in turn. */
  function RegisterAll(registry: Registry, names: seq<string>): Registry
    decreases |names|
  {
    if |names| == 0 then registry
    else RegisterAll(GetWrapper(registry, names[0]).registry, names[1..])
  }

  /** Registration only adds: the keys become exactly the old keys plus the
      requested names, old wrappers are untouched, and every added wrapper is
      still empty. */
  lemma {:induction false} RegistrationOnlyAdds(registry: Registry, names: seq<string>)
    ensures RegisterAll(registry, names).Keys == registry.Keys + set i | 0 <= i < |names| :: names[i]
    ensures forall k :: k in registry ==> RegisterAll(registry, names)[k] == registry[k]
    ensures forall k :: k in RegisterAll(registry, names) && k !in registry ==>
      RegisterAll(registry, names)[k] == Uninitialised
    decreases |names|
  {
    if |names| > 0 {
      var next := GetWrapper(registry, names[0]).registry;
      RegistrationOnlyAdds(next, names[1..]);
      var rest := set i | 0 <= i < |names[1..]| :: names[1..][i];
      var all := set i | 0 <= i < |names| :: names[i];
      assert all == {names[0]} + rest by {
        forall x | x in all ensures x in {names[0]} + rest {
          var i :| 0 <= i < |names| && names[i] == x;
          if i > 0 { assert names[1..][i - 1] == x; }
        }
        forall x | x in rest ensures x in all {
          var i :| 0 <= i < |names[1..]| && names[1..][i] == x;
          assert names[i + 1] == x;
        }
      }
    }
  }

  // ---------------------------------------------------------------------------
  // Runs of operations

  /** What the surrounding code can do to the map: register a name, bind a
      built factory to the wrapper of a name (`getWrapper(name).proxy(...)`),
      or refresh everything. */
  datatype Operation =
    | Register(unitName: string)
    | Bind(unitName: string, factory: Factory, info: Option<UnitInfo>, properties: Option<Properties>)
    | RefreshAll(version: string, env: Environment)

  /** `after` is a map the operation can leave behind. For a refresh that is
      anything `RefreshProxiedFactories` promises: same keys, and each wrapper
      either untouched or refreshed with the probed strategy. */
  ghost predicate Step(before: Registry, op: Operation, after: Registry) {
    match op
    case Register(name) => after == GetWrapper(before, name).registry
    case Bind(name, factory, info, properties) =>
      var looked := GetWrapper(before, name);
      after == Proxy(looked.registry, looked.handle, Some(factory), Some(name), info, properties).registry
    case RefreshAll(version, env) =>
      && after.Keys == before.Keys
      && forall k :: k in before ==>
           after[k] == before[k] ||
           after[k] == RefreshedEntry(DetectStrategy(version).strategy, before[k], k, env)
  }

  /** Along any run, no key ever disappears, and a wrapper that holds an
      instance keeps holding one: neither a refresh nor a rebinding with a
      built factory ever stores null. */
  lemma {:induction false} RunKeepsKeysAndInstances(states: seq<Registry>, ops: seq<Operation>)
    requires |states| == |ops| + 1
    requires forall i :: 0 <= i < |ops| ==> Step(states[i], ops[i], states[i + 1])
    ensures states[0].Keys <= states[|ops|].Keys
    ensures forall k :: k in states[0] && states[0][k].current.Some? ==> states[|ops|][k].current.Some?
    decreases |ops|
  {
    if |ops| > 0 {
      var n := |ops| - 1;
      RunKeepsKeysAndInstances(states[..n + 1], ops[..n]);
      assert states[..n + 1][n] == states[n];
      assert Step(states[n], ops[n], states[n + 1]);
      match ops[n]
      case Register(name) =>
      case Bind(name, factory, info, properties) =>
      case RefreshAll(version, env) =>
        forall k | k in states[n] && states[n][k].current.Some?
          ensures states[n + 1][k].current.Some?
        {
          InstanceNeverCleared(DetectStrategy(version).strategy, states[n][k], k, env);
        }
    }
  }

  // ---------------------------------------------------------------------------
  // Refreshing one wrapper

  /** Stale fallback: a refresh changes nothing but `currentInstance`, and
      changes that only to a factory the build call returned. */
  lemma StaleFallback(strategy: Strategy, w: Wrapper, key: string, env: Environment)
    ensures var after := RefreshedEntry(strategy, w, key, env);
      && after.unitName == w.unitName && after.info == w.info && after.properties == w.properties
      && (after.current != w.current ==>
            after.current.Some? && env.build(key, BuildRequestFor(strategy, w)) == Returned(after.current.value))
  {
  }

  /** A refresh never replaces an instance by null. */
  lemma InstanceNeverCleared(strategy: Strategy, w: Wrapper, key: string, env: Environment)
    requires w.current.Some?
    ensures RefreshedEntry(strategy, w, key, env).current.Some?
  {
  }

  /** On the legacy path the deregistration outcome is irrelevant unless it
      is an `Error`: a failed deregistration still leads to the same fresh
      build as a successful one. */
  lemma DeregistrationIsBestEffort(w: Wrapper, key: string, env1: Environment, env2: Environment)
    requires forall request :: env1.build(key, request) == env2.build(key, request)
    requires !env1.deregister(key, w.unitName, w.current).Escapes()
    requires !env2.deregister(key, w.unitName, w.current).Escapes()
    ensures RefreshLegacy(w, key, env1) == RefreshLegacy(w, key, env2)
    ensures RefreshLegacy(w, key, env1).Returned? || RefreshLegacy(w, key, env1).Escapes()
  {
  }

  // ---------------------------------------------------------------------------
  // Refreshing every wrapper

  /** Failure isolation: after a refresh in which nothing aborts, a wrapper
      whose build threw keeps its instance and one whose build returned has
      the new instance, whatever happened to the other. */
  lemma FailureIsolation(registry: Registry, strategy: Strategy, env: Environment,
                         failing: string, succeeding: string)
    requires failing in registry && succeeding in registry
    requires !Aborts(strategy, registry[failing], failing, env)
    requires !Aborts(strategy, registry[succeeding], succeeding, env)
    requires env.build(failing, BuildRequestFor(strategy, registry[failing])).Threw?
    requires env.build(succeeding, BuildRequestFor(strategy, registry[succeeding])).Returned?
    ensures Refreshed(registry, strategy, env)[failing] == registry[failing]
    ensures Refreshed(registry, strategy, env)[succeeding].current
         == Some(env.build(succeeding, BuildRequestFor(strategy, registry[succeeding])).value)
  {
  }

  // ---------------------------------------------------------------------------
  // Forwarding

  /** Right after `getWrapper(name).proxy(factory, ...)` the returned proxy
      forwards every call to `factory`. */
  lemma ProxyForwardsToFactory<T>(registry: Registry, name: string, factory: Factory,
                                  info: Option<UnitInfo>, properties: Option<Properties>,
                                  op: Factory -> Call<T>)
    ensures var looked := GetWrapper(registry, name);
      var bound := Proxy(looked.registry, looked.handle, Some(factory), Some(name), info, properties);
      && bound.proxy.Returned?
      && bound.proxy.value.handle.key in bound.registry
      && Forward(bound.registry, bound.proxy.value, op) == ThroughProxy(op(factory))
  {
  }

  /** The proxy obtained before a refresh needs no renewing: after the
      refresh it forwards to whatever instance the refresh left installed,
      the new one after a successful build and the old one otherwise. */
  lemma ForwardAfterRefresh<T>(registry: Registry, p: ForwardingProxy, strategy: Strategy,
                               env: Environment, op: Factory -> Call<T>)
    requires p.handle.key in registry && registry[p.handle.key].current.Some?
    ensures var k := p.handle.key;
      var built := env.build(k, BuildRequestFor(strategy, registry[k]));
      var after := Refreshed(registry, strategy, env);
      && p.handle.key in after
      && (!Aborts(strategy, registry[k], k, env) && built.Returned? ==>
            Forward(after, p, op) == ThroughProxy(op(built.value)))
      && (built.Threw? ==>
            Forward(after, p, op) == ThroughProxy(op(registry[k].current.value)))
  {
  }
}
