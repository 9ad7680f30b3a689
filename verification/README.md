# EntityManagerFactoryProxy, modelled in Dafny

HotswapAgent's Hibernate 3 plugin hands JPA users a dynamic proxy in place of
their `EntityManagerFactory`. The proxy forwards every call to a wrapper's
`currentInstance`. When classes change, `refreshProxiedFactories` rebuilds
every wrapped factory from the persistence unit name, descriptor (`info`) and
properties that were cached when the factory was first wrapped. It picks one
of two rebuild paths from the Hibernate version string. A failed rebuild
leaves the previous factory installed.

This project models that class as pure functions over an immutable map of
wrapper records:

- `java_runtime.dfy` (`JavaRuntime`): Java `null` as `Option`, and
  `Throwable` split into what `catch (Exception e)` catches and what it does
  not (`java.lang.Error`). `Call<T>` is the outcome of a call that returns or
  throws.
- `java_strings.dfy` (`JavaStrings`): `String.split("\\.")` and
  `Integer.valueOf`, proved against a plain dot decomposition (`Split`/`Join`)
  and decimal formatting.
- `hibernate_version.dfy` (`HibernateVersion`): the version probe. It keeps
  the literal conjunctive rule, the short-circuit of `&&`, and the caught
  exception that leaves the default `false`.
- `entity_manager_factory_proxy.dfy` (`EntityManagerFactoryProxy`): the
  registry (`getWrapper`), `proxy`, forwarding, both rebuild paths, the
  refresh loop, and a reference description of what one refresh leaves behind
  (`Installed`, `Refreshed`).
- `proxy_properties.dfy` (`ProxyProperties`): lemmas that relate several
  operations.

Wrapper objects are created only by `getWrapper`, are stored under one key
and are never removed. So a wrapper's identity is its key (`Handle`), and
mutating the object means updating the map entry under that key. Hibernate
and reflection become an `Environment` with two functions. `deregister` gives
the outcome of the registry cleanup. `build` gives the outcome of a
`BuildRequest`, and the request records which construction call (and which
form of `configure`) the code makes. The wrapper's key is passed to both, so
each wrapper can have its own outcome. The outcome depends on nothing else;
in particular it does not depend on earlier rebuilds in the same refresh. `Version.getVersionString()` is an
input string. The `HashMap`'s iteration order is left open: the refresh
method picks the next key with `:|`.

Behaviour of the code that is easy to miss:

- A throwable from the factory does not reach the caller of a forwarded call
  unchanged. `Method.invoke` wraps it in `InvocationTargetException`, and the
  proxy rethrows that as `UndeclaredThrowableException` (`ThroughProxy`).
  The model records the target's throwable as the cause and leaves out the
  `InvocationTargetException` layer in between.
- `catch (Exception e)` does not catch `java.lang.Error`. An `Error` thrown
  directly by a call the rebuild makes ends `refreshProxiedFactories`, and
  later wrappers are not refreshed (`completed == false`). Such calls are
  `Persistence.createEntityManagerFactory` (line 117), `loadClass` (lines
  120-121, 146, 165), `newInstance` (line 167) and the class initialisation
  `ReflectionHelper.get` can trigger (line 147). An `Error` raised inside a
  method called reflectively (lines 123-127, 148, 172-177, 181) is different.
  `Method.invoke` wraps it in `InvocationTargetException`, a checked
  exception, so the surrounding `catch (Exception e)` catches it.
  `ReflectionHelper` is not part of this model; it is taken to pass such an
  exception on, or to rewrap it as another exception. An `Error` outcome of
  `build` or `deregister` therefore stands only for the direct cases. For
  exceptions, each wrapper is refreshed independently of the others.
- On the modern path without `info`, the exception from
  `Persistence.createEntityManagerFactory` is not caught there. It reaches
  the loop's handler instead. The effect on the wrapper is the same: the old
  instance stays.
- A version whose major component is below 4 never has its minor component
  looked at. So "3" is legacy without a warning, while "4" is legacy with one.
- `proxy(null, ...)` stores null in `currentInstance` before it throws
  `NullPointerException`.
- The "4.3 or greater" rule is literally "major >= 4 AND minor >= 3". This
  makes "5.0.0" legacy. The model keeps this rule and proves it
  (`VersionFiveZeroIsLegacy`).

## Model

| member | source | states |
|---|---|---|
| EntityManagerFactoryProxy.GetWrapper | plugin/hotswap-agent-hibernate3-plugin/src/main/java/org/hotswap/agent/plugin/hibernate3/jpa/proxy/EntityManagerFactoryProxy.java:78-83 | the returned handle is the requested name and is always present in the map (never null); the keys become the old keys plus that name; every existing wrapper is untouched; a new name gets an empty wrapper |
| EntityManagerFactoryProxy.Proxy | plugin/hotswap-agent-hibernate3-plugin/src/main/java/org/hotswap/agent/plugin/hibernate3/jpa/proxy/EntityManagerFactoryProxy.java:199-207 | the wrapper's four fields become exactly the arguments and nothing else in the map changes; a proxy on that wrapper is returned iff the factory is not null, otherwise a NullPointerException is thrown after the fields are set |
| EntityManagerFactoryProxy.Forward | plugin/hotswap-agent-hibernate3-plugin/src/main/java/org/hotswap/agent/plugin/hibernate3/jpa/proxy/EntityManagerFactoryProxy.java:208-216 | a forwarded call runs on the instance the wrapper holds at call time; a null instance gives a NullPointerException; a throwable from the instance reaches the caller wrapped as UndeclaredThrowableException |
| EntityManagerFactoryProxy.BuildRequestFor | plugin/hotswap-agent-hibernate3-plugin/src/main/java/org/hotswap/agent/plugin/hibernate3/jpa/proxy/EntityManagerFactoryProxy.java:116-178 | both paths build from the cached properties; they use the descriptor form iff `info` is not null, the unit name otherwise; the Ejb3Configuration forms are used iff the path is legacy |
| EntityManagerFactoryProxy.RefreshModern | plugin/hotswap-agent-hibernate3-plugin/src/main/java/org/hotswap/agent/plugin/hibernate3/jpa/proxy/EntityManagerFactoryProxy.java:115-133 | a successful build replaces only `currentInstance`; a failed build leaves the wrapper as it was; an exception escapes only from the descriptor-less call, and there it always escapes |
| EntityManagerFactoryProxy.BuildFresh | plugin/hotswap-agent-hibernate3-plugin/src/main/java/org/hotswap/agent/plugin/hibernate3/jpa/proxy/EntityManagerFactoryProxy.java:163-188 | a successful configure-and-build replaces only `currentInstance`; an exception never escapes and leaves the wrapper unchanged |
| EntityManagerFactoryProxy.RefreshLegacy | plugin/hotswap-agent-hibernate3-plugin/src/main/java/org/hotswap/agent/plugin/hibernate3/jpa/proxy/EntityManagerFactoryProxy.java:143-156 | an exception from deregistration is swallowed and the fresh build runs exactly as after a successful deregistration; only an Error stops it |
| EntityManagerFactoryProxy.Rebuild | plugin/hotswap-agent-hibernate3-plugin/src/main/java/org/hotswap/agent/plugin/hibernate3/jpa/proxy/EntityManagerFactoryProxy.java:100-106 | one pass of the loop agrees with the control-flow-free description: it throws an Error iff `Aborts`, and otherwise leaves the wrapper with `Installed` as its instance |
| EntityManagerFactoryProxy.RefreshProxiedFactories | plugin/hotswap-agent-hibernate3-plugin/src/main/java/org/hotswap/agent/plugin/hibernate3/jpa/proxy/EntityManagerFactoryProxy.java:88-110 | the probed strategy applies to every wrapper; keys are unchanged; the refresh completes iff no wrapper throws an Error, and then every wrapper is refreshed (`Refreshed`); in any case each wrapper is either untouched or refreshed |
| HibernateVersion.DetectFrom | plugin/hotswap-agent-hibernate3-plugin/src/main/java/org/hotswap/agent/plugin/hibernate3/jpa/proxy/EntityManagerFactoryProxy.java:90-95 | the modern path needs at least two components and never comes with the warning |
| HibernateVersion.DetectStrategy | plugin/hotswap-agent-hibernate3-plugin/src/main/java/org/hotswap/agent/plugin/hibernate3/jpa/proxy/EntityManagerFactoryProxy.java:89-95 | dropping trailing empty components in `split` never changes the verdict or the warning: probing the split array equals probing all components |
| HibernateVersion.ModernIff | plugin/hotswap-agent-hibernate3-plugin/src/main/java/org/hotswap/agent/plugin/hibernate3/jpa/proxy/EntityManagerFactoryProxy.java:92 | modern iff the first two components are int numerals with component 0 >= 4 AND component 1 >= 3 |
| HibernateVersion.WarnedIff | plugin/hotswap-agent-hibernate3-plugin/src/main/java/org/hotswap/agent/plugin/hibernate3/jpa/proxy/EntityManagerFactoryProxy.java:91-94 | the warning is logged iff the first component is not an int numeral, or it is at least 4 and the second component is missing or not an int numeral; a major below 4 never warns, whatever follows |
| HibernateVersion.DetectNumericVersion | plugin/hotswap-agent-hibernate3-plugin/src/main/java/org/hotswap/agent/plugin/hibernate3/jpa/proxy/EntityManagerFactoryProxy.java:89-92 | for every version "major.minor" with an optional dot-led tail: modern iff major >= 4 and minor >= 3, and no warning |
| HibernateVersion.DetectMajorOnly | plugin/hotswap-agent-hibernate3-plugin/src/main/java/org/hotswap/agent/plugin/hibernate3/jpa/proxy/EntityManagerFactoryProxy.java:92-94 | a bare major version is legacy; it warns iff major >= 4, because `&&` only then reads the missing component |
| HibernateVersion.DetectUnparsableMajor | plugin/hotswap-agent-hibernate3-plugin/src/main/java/org/hotswap/agent/plugin/hibernate3/jpa/proxy/EntityManagerFactoryProxy.java:91-95 | a non-numeric first component gives legacy with a warning, whatever follows |
| HibernateVersion.DetectUnparsableMinor | plugin/hotswap-agent-hibernate3-plugin/src/main/java/org/hotswap/agent/plugin/hibernate3/jpa/proxy/EntityManagerFactoryProxy.java:91-95 | with major >= 4, a missing or non-numeric second component gives legacy with a warning |
| HibernateVersion.VersionFourThreeIsModern | plugin/hotswap-agent-hibernate3-plugin/src/main/java/org/hotswap/agent/plugin/hibernate3/jpa/proxy/EntityManagerFactoryProxy.java:89-92 | "4.3.0" is modern without a warning |
| HibernateVersion.VersionFourTwoIsLegacy | plugin/hotswap-agent-hibernate3-plugin/src/main/java/org/hotswap/agent/plugin/hibernate3/jpa/proxy/EntityManagerFactoryProxy.java:89-92 | "4.2.9" is legacy without a warning |
| HibernateVersion.VersionThreeSixIsLegacy | plugin/hotswap-agent-hibernate3-plugin/src/main/java/org/hotswap/agent/plugin/hibernate3/jpa/proxy/EntityManagerFactoryProxy.java:89-92 | "3.6.1" is legacy without a warning |
| HibernateVersion.VersionFiveZeroIsLegacy | plugin/hotswap-agent-hibernate3-plugin/src/main/java/org/hotswap/agent/plugin/hibernate3/jpa/proxy/EntityManagerFactoryProxy.java:89-92 | "5.0.0" is legacy without a warning: the rule is conjunctive |
| HibernateVersion.UnknownVersionIsLegacy | plugin/hotswap-agent-hibernate3-plugin/src/main/java/org/hotswap/agent/plugin/hibernate3/jpa/proxy/EntityManagerFactoryProxy.java:89-95 | "unknown" is legacy and the warning is logged; the probe never fails |
| JavaStrings.Split | plugin/hotswap-agent-hibernate3-plugin/src/main/java/org/hotswap/agent/plugin/hibernate3/jpa/proxy/EntityManagerFactoryProxy.java:89 | the components are dot-free, there is at least one, joining them with dots gives the string back, and a dot-free string is its own single component |
| JavaStrings.SplitJoin | plugin/hotswap-agent-hibernate3-plugin/src/main/java/org/hotswap/agent/plugin/hibernate3/jpa/proxy/EntityManagerFactoryProxy.java:89 | splitting joined dot-free components gives the components back |
| JavaStrings.JavaSplit | plugin/hotswap-agent-hibernate3-plugin/src/main/java/org/hotswap/agent/plugin/hibernate3/jpa/proxy/EntityManagerFactoryProxy.java:89 | `split("\\.")` is a prefix of the components and drops only empty ones, and when the string holds a dot every trailing empty component is dropped; a dot-free string splits to itself |
| JavaStrings.ParseInt | plugin/hotswap-agent-hibernate3-plugin/src/main/java/org/hotswap/agent/plugin/hibernate3/jpa/proxy/EntityManagerFactoryProxy.java:92 | a parsed value fits in an int and comes from a non-empty string without a dot that ends in a digit, so a lone sign is unparsable (which value it is: `ParseIntValue`) |
| JavaStrings.FormatParseRoundTrip | plugin/hotswap-agent-hibernate3-plugin/src/main/java/org/hotswap/agent/plugin/hibernate3/jpa/proxy/EntityManagerFactoryProxy.java:92 | every int's decimal numeral parses back to that int |
| JavaStrings.ParseIntRejectsNonDigit | plugin/hotswap-agent-hibernate3-plugin/src/main/java/org/hotswap/agent/plugin/hibernate3/jpa/proxy/EntityManagerFactoryProxy.java:92 | any character other than a digit or a leading sign makes the component unparsable |
| JavaStrings.ParseIntValue | plugin/hotswap-agent-hibernate3-plugin/src/main/java/org/hotswap/agent/plugin/hibernate3/jpa/proxy/EntityManagerFactoryProxy.java:92 | an optional `+` or `-` followed by decimal digits parses to its signed value ("+4" and "04" to 4, "-0" to 0) when that lies in the int range, and is unparsable otherwise |
| JavaStrings.ParseIntRejectsOverflow | plugin/hotswap-agent-hibernate3-plugin/src/main/java/org/hotswap/agent/plugin/hibernate3/jpa/proxy/EntityManagerFactoryProxy.java:92 | a numeral, with or without a sign, whose signed value lies outside the int range is unparsable ("-2147483649", "+2147483648") |
| ProxyProperties.GetWrapperIdempotent | plugin/hotswap-agent-hibernate3-plugin/src/main/java/org/hotswap/agent/plugin/hibernate3/jpa/proxy/EntityManagerFactoryProxy.java:78-83 | a second `getWrapper` with the same name returns the same handle and leaves the map unchanged |
| ProxyProperties.RegistrationOnlyAdds | plugin/hotswap-agent-hibernate3-plugin/src/main/java/org/hotswap/agent/plugin/hibernate3/jpa/proxy/EntityManagerFactoryProxy.java:52-83 | after any sequence of registrations the keys are exactly the old keys plus the names, old wrappers are untouched, and added wrappers are empty |
| ProxyProperties.RunKeepsKeysAndInstances | plugin/hotswap-agent-hibernate3-plugin/src/main/java/org/hotswap/agent/plugin/hibernate3/jpa/proxy/EntityManagerFactoryProxy.java:52-110 | along any run of registrations, bindings and refreshes, no key disappears and a wrapper that holds an instance never goes back to null |
| ProxyProperties.StaleFallback | plugin/hotswap-agent-hibernate3-plugin/src/main/java/org/hotswap/agent/plugin/hibernate3/jpa/proxy/EntityManagerFactoryProxy.java:117-131 | a refresh changes only `currentInstance`, and changes it only to a factory the build call returned |
| ProxyProperties.InstanceNeverCleared | plugin/hotswap-agent-hibernate3-plugin/src/main/java/org/hotswap/agent/plugin/hibernate3/jpa/proxy/EntityManagerFactoryProxy.java:117-187 | a refresh never replaces an instance with null |
| ProxyProperties.DeregistrationIsBestEffort | plugin/hotswap-agent-hibernate3-plugin/src/main/java/org/hotswap/agent/plugin/hibernate3/jpa/proxy/EntityManagerFactoryProxy.java:145-155 | unless it is an Error, the deregistration outcome does not affect the legacy rebuild, and that rebuild never lets an exception out |
| ProxyProperties.FailureIsolation | plugin/hotswap-agent-hibernate3-plugin/src/main/java/org/hotswap/agent/plugin/hibernate3/jpa/proxy/EntityManagerFactoryProxy.java:97-109 | in one refresh, a wrapper whose build threw keeps its state while another wrapper whose build returned gets the new instance |
| ProxyProperties.ProxyForwardsToFactory | plugin/hotswap-agent-hibernate3-plugin/src/main/java/org/hotswap/agent/plugin/hibernate3/jpa/proxy/EntityManagerFactoryProxy.java:199-216 | right after `getWrapper(name).proxy(factory, ...)` the proxy forwards every call to `factory` |
| ProxyProperties.ForwardAfterRefresh | plugin/hotswap-agent-hibernate3-plugin/src/main/java/org/hotswap/agent/plugin/hibernate3/jpa/proxy/EntityManagerFactoryProxy.java:210-214 | a proxy obtained before a refresh forwards afterwards to the newly built instance, or to the old one if the build threw |

## Left out

- The `reloadLock` barrier and the lock held during each rebuild, the thread-safety of the unsynchronised `HashMap`, and memory visibility: the model is single-threaded.
- Reflection and class loading (`loadClass`, `ReflectionHelper`, `Ejb3Configuration`, `Bootstrap`, `EntityManagerFactoryRegistry`): each rebuild path collapses into one `build` outcome, and the cleanup into one `deregister` outcome. A `ClassNotFoundException` is one of the exceptions such an outcome can carry.
- `Proxy.newProxyInstance` and the class loader and interfaces it uses: a proxy is just the handle it forwards through, and the forwarded operation is an abstract function of the instance.
- Logging and `printStackTrace`: only the version warning is kept, as `Detection.warned`.
- `Version.getVersionString()` and `Persistence.createEntityManagerFactory` as code: the version is an input string, and the factory call is a `build` outcome.
- The outcomes of `build` and `deregister` are stateless per wrapper: they are functions of the wrapper's key and the request only. Effects of one rebuild on another through Hibernate's process-wide state, such as `EntityManagerFactoryRegistry.INSTANCE` (lines 146-149), are not modelled. This is why `Refreshed`, `FailureIsolation` and `ForwardAfterRefresh` do not depend on the `HashMap`'s iteration order.
- A build call that returns null instead of throwing: factories are never null in the model.
- `getWrapper(null)`: unit names are strings, so `HashMap`'s null key is not modelled.
- JavaStrings.ParseInt: accepts only ASCII digits, while `Integer.valueOf` also accepts other Unicode decimal digits through `Character.digit`.
- ProxyProperties.RunKeepsKeysAndInstances: binds only non-null factories. `proxy(null, ...)` does store null, as `Proxy` states.
