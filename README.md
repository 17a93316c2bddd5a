# Tempo module lifecycle, modelled in Dafny

This project models the root object of the Tempo server (`pkg/tempo/tempo.go`): the
lifecycle orchestrator that initialises a target module and its dependency closure
depth-first, memoised by an `inited` set, and tears it down again, plus the selector that
installs either the real or the fake authentication hooks on all three transports.

- `Registry` (registry.dfy): the modules table as a parameter, a map from module name to
  its dependencies and optional init and stop actions. A name missing from the map reads
  as the empty descriptor, as a Go map lookup does. The table carries a rank that strictly
  decreases along every dependency (`Acyclic`); this gives the recursion its termination
  measure. It also defines the dependency closure and the lemmas about it.
- `Auth` (auth.dfy): the interceptors and middlewares as opaque tags, and `Select`, the
  bundle chosen by `auth_enabled`.
- `Lifecycle` (lifecycle.dfy): `InitFrom` and `StopFrom`, what one call of `init(m)` and
  `stop(m)` does. Each returns the new inited set and the ordered events of that call, and
  `InitFrom` also returns its error. The loops over the dependencies are `InitDeps` and
  `StopDeps`; they carry the events of the iterations already done, as the methods' loops
  do. The lemmas about them state the properties of the orchestrator.
- `TempoApp` (tempo.dfy): the class `Tempo`. It has the mutable `inited` set, the
  configuration and HTTP middleware fields that auth selection writes, and two ghost
  traces. The recursive methods `InitModule` and `StopModule`, and `Stop` and `New`, are
  proved against the `Lifecycle` functions.
- `Scenarios` (scenarios.dfy): a three-module table (A; B needs A; C needs A then B) run
  through init and stop, including the case where A's init action fails.

The init trace records every module that reaches the "initialising" step (line 110).
That is the point where its init action, if it has one, is invoked. The stop trace
records every module whose stop action is invoked (line 147).

Three behaviours of the code a reader might not expect:
- A module's dependencies get their `stop` calls before its own stop action runs (lines
  139-148). So for C needing A then B, the stop actions run A, B, C, not the reverse of
  the init order (`Scenarios.ExampleStopOrder`).
- An unknown module name is not an error. It reads as a descriptor with no dependencies
  and no actions, so `init` marks it inited.
- Only the failing module's own error is wrapped with its name (line 113). Callers
  further up return that error unchanged; they do not add their own names.

## Model

| member | source | states |
|---|---|---|
| `TempoApp.Tempo.constructor` | pkg/tempo/tempo.go:65-68 | a new root object keeps the given configuration and table and starts with an empty inited set and nil HTTP middleware |
| `TempoApp.Tempo.New` | pkg/tempo/tempo.go:64-77 | auth hooks are selected, then the target is initialised; an object is returned exactly when init succeeds, with the auth configuration installed and the inited set and trace of that init |
| `TempoApp.Tempo.SetupAuthMiddleware` | pkg/tempo/tempo.go:79-97 | the unary and stream interceptor lists and the HTTP middleware become the bundle `Select` picks for `auth_enabled`; the rest of the configuration is unchanged |
| `TempoApp.Tempo.InitModule` | pkg/tempo/tempo.go:99-119 | the new inited set, the appended trace and the returned error are exactly those of `InitFrom`; an already inited module returns nil and changes nothing |
| `TempoApp.Tempo.StopModule` | pkg/tempo/tempo.go:133-151 | the new inited set and the appended stop trace are exactly those of `StopFrom`; a module that is not inited is a no-op |
| `TempoApp.Tempo.Stop` | pkg/tempo/tempo.go:127-131 | stopping the root object is the stop of the configured target |
| `Auth.Select` | pkg/tempo/tempo.go:80-96 | the bundle is all real hooks exactly when auth is enabled and all fake hooks exactly when it is not |
| `Auth.SelectionNeverMixed` | pkg/tempo/tempo.go:80-96 | in a selected bundle the three hooks are either all real or all fake |
| `Registry.Lookup` | pkg/tempo/tempo.go:104-112 | a name in the table reads its own entry; a name missing from the table reads as the zero descriptor, with no dependencies and nil init and stop actions |
| `Lifecycle.Message` | pkg/tempo/tempo.go:113 | the wrapped error text is "error initialising module: ", then the failing module's name, then ": ", then the cause, and nothing else |
| `TempoApp.WithAuth` | pkg/tempo/tempo.go:81-92 | after auth selection each interceptor list holds exactly one entry: the user-header interceptor when auth is enabled, the fake one when it is not; target and auth switch are kept |
| `Lifecycle.InitFrom` | pkg/tempo/tempo.go:99-119 | init(m) from inited set s, with its events and error; it never forgets an inited module, and m is inited whenever it returns nil |
| `Lifecycle.InitDeps` | pkg/tempo/tempo.go:104-108 | the loop over m's dependencies from a position on, stopping at the first error; it never forgets an inited module |
| `Lifecycle.StopFrom` | pkg/tempo/tempo.go:133-151 | stop(m) from inited set c, with its stop events; it only removes modules, and m is never inited afterwards |
| `Lifecycle.StopDeps` | pkg/tempo/tempo.go:139-141 | the loop of stop over m's dependencies from a position on; it only removes modules |
| `Lifecycle.InitDepsShift` | pkg/tempo/tempo.go:104-108 | the events collected before a position of the dependency loop are a prefix of its result; the rest of the result is the loop run from that position on its own |
| `Lifecycle.InitDepsStep` | pkg/tempo/tempo.go:104-108 | one iteration of the dependency loop: a failing dependency's result is returned as is, otherwise the dependency's events are followed by those of the remaining iterations |
| `Lifecycle.StopDepsShift` | pkg/tempo/tempo.go:139-141 | the same prefix property for the stop loop |
| `Lifecycle.StopDepsStep` | pkg/tempo/tempo.go:139-141 | one iteration of the stop loop: the dependency's stop events followed by those of the remaining iterations |
| `Lifecycle.InitRunsCombine` | pkg/tempo/tempo.go:104-108 | a successful init run followed by a run from the set it left is again a run with those properties, over the union of both scopes |
| `Lifecycle.InitFromFacts` | pkg/tempo/tempo.go:99-119 | init keeps every already-inited module. It visits only modules of the closure that were not inited, each once. On success exactly the visited modules are added. On failure the last visited module is the one whose own init action failed, the error carries its name and cause, and only the modules before it are added. m is inited afterwards exactly when init succeeds |
| `Lifecycle.InitDepsFacts` | pkg/tempo/tempo.go:104-108 | the same for the dependency loop, stopping at the first failing dependency; on success every dependency from the current one on is inited |
| `Lifecycle.InitFromOrdered` | pkg/tempo/tempo.go:104-112 | every module reaching its init step finds each dependency inited before the call or earlier in the same call |
| `Lifecycle.InitDepsOrdered` | pkg/tempo/tempo.go:104-108 | the same ordering for the events of the dependency loop |
| `Lifecycle.InitPreservesClosed` | pkg/tempo/tempo.go:104-117 | if every inited module's dependencies are inited before init, the same holds after it, on success and on failure |
| `Lifecycle.InitCoversClosure` | pkg/tempo/tempo.go:99-118 | a successful init from a dependency-closed set leaves the whole dependency closure of m inited |
| `Lifecycle.InitIdempotent` | pkg/tempo/tempo.go:100-102 | after a successful init of m, a second init of m returns nil, changes nothing and has no events |
| `Lifecycle.InitTwiceRunsEachOnce` | pkg/tempo/tempo.go:100-117 | across a successful init and any later init, no module has its init action invoked twice |
| `Lifecycle.StopFromFacts` | pkg/tempo/tempo.go:133-150 | stop removes only modules of the closure of m, m among them; the stop actions that run are exactly those of the removed modules that have one, each once, and so only for modules that were inited |
| `Lifecycle.StopDepsFacts` | pkg/tempo/tempo.go:139-141 | the same for the loop over dependencies; afterwards none of those dependencies is inited |
| `Lifecycle.StopFromOrdered` | pkg/tempo/tempo.go:139-148 | for any inited set, a module's stop action runs after the stop actions of its direct dependencies that were inited and have one |
| `Lifecycle.StopDepsOrdered` | pkg/tempo/tempo.go:139-141 | the same direct ordering for the stop actions run inside the dependency loop |
| `Lifecycle.StopFromClosureOrdered` | pkg/tempo/tempo.go:133-151 | from a tidy set, no stop action runs after that of a module whose transitive closure contains it, even when modules in between have no stop action |
| `Lifecycle.StopDepsClosureOrdered` | pkg/tempo/tempo.go:139-141 | the same transitive ordering for the dependency loop: a later dependency's teardown never stops anything of an earlier one's closure |
| `Lifecycle.StopTearsDown` | pkg/tempo/tempo.go:133-141 | when m is inited or its whole closure is already gone, and every inited module in the closure has its dependencies inited or fully gone, stop leaves nothing of the closure of m inited, whether or not modules have stop actions |
| `Lifecycle.StopDepsTearDown` | pkg/tempo/tempo.go:139-141 | when every dependency from the current one on is inited or fully gone, and tidy, the dependency loop leaves nothing of those dependencies' closures inited |
| `Lifecycle.InitThenStopLeavesNothing` | pkg/tempo/tempo.go:99-151 | from an empty inited set, a successful init of m followed by stop of m leaves the set empty and runs each inited module's stop action exactly once, after the stop actions of everything it transitively depends on |
| `Lifecycle.StopIgnoresOutcomes` | pkg/tempo/tempo.go:143-150 | whether stop actions succeed or fail changes neither the resulting inited set nor which stop actions run: errors are swallowed |
| `Lifecycle.StopDepsIgnoresOutcomes` | pkg/tempo/tempo.go:139-141 | the same independence for the dependency loop |
| `Scenarios.ExampleInitOrder` | pkg/tempo/tempo.go:99-119 | for C needing A then B, init of C from nothing runs A, B, C in that order and inits all three |
| `Scenarios.ExampleStopOrder` | pkg/tempo/tempo.go:133-151 | stop of C with all three inited runs the stop actions A, B, C in that order and empties the set |
| `Scenarios.ChainStopOrder` | pkg/tempo/tempo.go:133-151 | for M needing D needing E, where D has no stop action, stop of M runs E's stop action and then M's and empties the set |
| `Scenarios.ExampleFailure` | pkg/tempo/tempo.go:104-117 | when A's init fails, init of C returns A's wrapped error after visiting only A, inits nothing, and a later stop of C does nothing |

## Left out

- `Run` and the `server.Shutdown()` call in `Stop` (lines 122-130): transport I/O and blocking on signals.
- Logging (lines 110, 147, 149): the ghost traces stand at the two "initialising" and "stopping" log points. A failed stop is not a separate entry; it is a stop event of a module whose stop outcome is a failure.
- `Config` fields other than the target, the auth switch and the two interceptor lists, and `RegisterFlags` (lines 23-46): flag and YAML registration.
- The subsystem instances (server, ring, distributor, ingester, querier) that init actions store on the root object. Actions are abstract outcomes written in the table, so an action's result cannot depend on the object's state. If a module is initialised again after a stop or after a failure, its action gives the same outcome.
- What the real and fake middlewares do with a request (identity checks, placeholder identity): they are defined outside this file, so they are tags here.
- The concrete modules table, which is defined outside this file: it is a parameter.
- Dependency cycles: `init` would recurse without bound on one. `stop` removes m before it recurses (line 137), so it ends even on a cycle, but the model does not cover that case. The model requires the whole table to be acyclic through its rank, including modules the target cannot reach.
- `TempoApp.Tempo.Stop`: the source's `Stop` always returns nil, so the model's `Stop` has no result.
- `TempoApp.Tempo.New`: the fact that auth selection happens before init is shown by the order of the calls in its body. `InitModule` cannot change the auth fields (its frame), but no trace event records the order.
- `Lifecycle.InitTwiceRunsEachOnce`: at-most-once is stated for one call and for any call after a successful one. It is not stated for histories that contain a failed init or a stop; after those, the code too may run a module's init action again.
