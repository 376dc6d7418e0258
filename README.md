# HookSystem engine in Dafny

This project models the tracking and dispatch engine of the HookSystem Unity
library. An object registers with the runner. Each of its members marked
with `HookVar` (a field, or a property with a getter) becomes a binding. A
per-object tracker polls these bindings on its own timer. When a polled
value differs from the last one seen, the tracker calls the binding's
callback with `(old, new)`: a delegate captured from a delegate-typed
field, else a method found by name.

The model has five modules:

- `Host` (host.dfy) is what the engine sees of the runtime:
  - object identities and boxed values with `Equals` semantics;
  - the reflection view of an object: its members in enumeration order, the current field and property values, its delegate-typed fields and its method names;
  - the `World`, the map of objects a weak reference can still resolve.
- `Structures` (structures.dfy) holds:
  - the configuration asset and `LoadConfig`;
  - the binding record `HookData` with `GetCurrentValue`.
- `Tracker` (tracker.dfy) holds the `HookTracker` class: its constructor, `Tick`, `CacheHooks` and `CheckChanges`. Beside them are the functions these methods are proved against:
  - `Bindings` for discovery;
  - `Dispatches` and `Refreshed` for a change check;
  - `TickRun` for a run of ticks.
- `Runner` (runner.dfy) holds:
  - the `HookRunner` class: `Register`, `Unregister` and the per-frame `Update`;
  - the `Globals` class for the runner's static fields: the lazy singleton `Instance` and the quitting flag that `OnApplicationQuit` sets.
- `Provider` (provider.dfy) is the static facade. It forwards to the singleton when there is one.

`Scenario` (scenario.dfy) works through the demo's health counter as an example.

The callbacks a check makes are returned as a sequence of `Invocation`s:
`(target, binding index, handler, old value, new value)`. Time is `real`.

Two behaviours of the code are easy to miss:

- `Unregister` scans from the end of the list. With duplicate registrations it removes the most recently added matching tracker, not the first.
- `Update` visits trackers from the last index to the first. Callbacks of different trackers in one frame therefore come in reverse registration order (`FrameCalls`).

## Model

| member | source | states |
|---|---|---|
| Structures.LoadConfig | Runtime/Managers/HookRunner.cs:45-49 | the configuration is the loaded asset when there is one, else a fresh asset with tick rate 0.01 and logging off |
| Structures.HookData.GetCurrentValue | Runtime/Structures/HookData.cs:13-18 | a field member reads the field's value on the target, a property member the getter's value, any other member null; as a function of the binding it cannot assign any of its fields |
| Tracker.NewBinding | Runtime/Managers/HookTracker.cs:40-52 | a new binding keeps the member and is seeded with its current value; at most one of delegate and method is set, neither when the hook name is null or empty; when the name is non-empty, a delegate-typed field of that name always supplies the delegate it holds, and otherwise a method of that name is always bound; a method is bound only when no such field exists and the type has that method |
| Tracker.Bindings | Runtime/Managers/HookTracker.cs:31-56 | every binding is of a field or readable property, is seeded with the member's current value and has at most one callback |
| Tracker.BindingsAppend | Runtime/Managers/HookTracker.cs:34-54 | bindings follow member enumeration order: those of a concatenation are the parts' bindings one after the other |
| Tracker.BindingsCount | Runtime/Managers/HookTracker.cs:36-38 | exactly the marked fields and readable properties become bindings, one each (counted independently) |
| Tracker.BindingsFromMembers | Runtime/Managers/HookTracker.cs:36-40 | every binding is the one built for some marked, watchable member |
| Tracker.DispatchAt | Runtime/Managers/HookTracker.cs:62-68 | one binding dispatches at most once per check, tagged with its own index |
| Tracker.Dispatches | Runtime/Managers/HookTracker.cs:58-72 | a check visits the bindings in list order: the binding indices of its calls strictly increase, so each binding is called at most once, and each names an existing binding |
| Tracker.DispatchesSound | Runtime/Managers/HookTracker.cs:62-68 | every call is for a binding whose value changed, passes (last value, current value) in that order, and goes to the delegate if there is one, else the method |
| Tracker.DispatchesComplete | Runtime/Managers/HookTracker.cs:62-68 | every changed binding with a callback is dispatched |
| Tracker.QuietWhenUnchanged | Runtime/Managers/HookTracker.cs:62-63 | a check on a target whose values all equal the last ones calls nothing |
| Tracker.RecheckIsQuiet | Runtime/Managers/HookTracker.cs:62-70 | a check repeated immediately after another calls nothing, because every last value was overwritten |
| Tracker.SeededIsQuiet | Runtime/Managers/HookTracker.cs:16-21 | construction seeds the last values, so a check on the object as it was at registration calls nothing |
| Tracker.TickAccounting | Runtime/Managers/HookTracker.cs:23-29 | over a run of frames, each firing consumes at least one interval of elapsed time and the timer never goes negative; a run that never fires keeps all the elapsed time |
| Tracker.TickRunFiresIffReached | Runtime/Managers/HookTracker.cs:23-29 | a run of frames fires at least once exactly when the time it adds reaches the interval |
| Tracker.HookTracker.constructor | Runtime/Managers/HookTracker.cs:16-21 | the tracker records target and interval, its timer is 0, and its bindings are those discovered on the target at that moment |
| Tracker.HookTracker.Tick | Runtime/Managers/HookTracker.cs:23-29 | is one step of `TickRun` (due is `Due`, the new timer `NextTimer` of the old one); adds dt to the timer and reports due exactly when old timer + dt reaches the interval; when due the timer is reset to 0 (one firing per call, however large dt), otherwise it is old + dt; bindings unchanged |
| Tracker.HookTracker.CacheHooks | Runtime/Managers/HookTracker.cs:31-56 | appends exactly `Bindings` of the target's members to the existing bindings; timer unchanged |
| Tracker.HookTracker.CheckChanges | Runtime/Managers/HookTracker.cs:58-72 | the calls made are `Dispatches` of the bindings before the check; afterwards each binding's last value is the value just read, with member and callbacks unchanged; timer unchanged |
| Runner.IsUnityObjectDead | Runtime/Managers/HookRunner.cs:89-96 | an object derived from the engine's object class is dead exactly when destroyed; any other object is never dead |
| Runner.ResolveInterval | Runtime/Managers/HookRunner.cs:53 | the new tracker's interval is the requested one when positive, else the configured tick rate, and is positive when that rate is |
| Runner.DistinctAppend | Runtime/Managers/HookRunner.cs:54 | appending a fresh tracker keeps the registry free of repeated tracker objects |
| Runner.Survivors | Runtime/Managers/HookRunner.cs:72-80 | eviction never grows the list |
| Runner.SurvivorsSpec | Runtime/Managers/HookRunner.cs:76-80 | after eviction the list holds exactly the trackers whose target resolves and is not a destroyed engine object |
| Runner.SurvivorsAppend | Runtime/Managers/HookRunner.cs:72-80 | eviction keeps relative order: it acts on each part of a list independently |
| Runner.SurvivorsKeepAll | Runtime/Managers/HookRunner.cs:76-80 | when every target is alive, eviction removes nothing |
| Runner.SurvivorsDropOne | Runtime/Managers/HookRunner.cs:76-79 | when exactly one target is gone, eviction removes that one entry and keeps the rest in order |
| Runner.SurvivorsDistinct | Runtime/Managers/HookRunner.cs:78 | eviction never duplicates a tracker |
| Runner.FrameCallsFromSurvivors | Runtime/Managers/HookRunner.cs:76-85 | evicted trackers are never checked: every call of a frame is for a surviving tracker's target, and its old and new values differ |
| Runner.LastMatch | Runtime/Managers/HookRunner.cs:60-62 | finds the highest index whose tracker resolves to the target, with no match above it, or -1 |
| Runner.RemoveLastMatch | Runtime/Managers/HookRunner.cs:58-66 | removes exactly one tracker when some tracker resolves to the target, and leaves the list unchanged otherwise |
| Runner.DistinctRemove | Runtime/Managers/HookRunner.cs:63 | removing one entry keeps the registry free of repeated trackers |
| Runner.UnregisterUndoesRegister | Runtime/Managers/HookRunner.cs:51-66 | registering and then unregistering a live object gives back the previous list, even when the object was already registered |
| Runner.UnregisterTwiceIsOnce | Runtime/Managers/HookRunner.cs:58-66 | when at most one tracker resolves to the target, a second unregister changes nothing |
| Runner.HookRunner.constructor | Runtime/Managers/HookRunner.cs:29-39 | a new runner has no trackers and the loaded (or default) configuration |
| Runner.HookRunner.Register | Runtime/Managers/HookRunner.cs:51-56 | appends exactly one fresh tracker at the end, for the target, with the resolved interval, timer 0 and the target's current bindings; existing trackers and their state are untouched (so a second registration adds a second tracker) |
| Runner.HookRunner.Unregister | Runtime/Managers/HookRunner.cs:58-66 | the list becomes `RemoveLastMatch` of the old list |
| Runner.HookRunner.Visit | Runtime/Managers/HookRunner.cs:74-85 | reports whether the tracker survives; a survivor is ticked once with dt and checked exactly when due, making `TrackerCalls`; an evicted tracker is left as it was and makes no call |
| Runner.HookRunner.Update | Runtime/Managers/HookRunner.cs:68-87 | when quitting nothing changes and no call is made; otherwise the list becomes `Survivors` of the old list, the calls are `FrameCalls` of the old state (last tracker first), and every tracker present at the start is `Advanced` (survivors ticked once and checked iff due, evicted ones untouched) |
| Runner.HookRunner.Sweep | Runtime/Managers/HookRunner.cs:71-86 | the reverse-index loop of `Update`: same list, calls and per-tracker state as `Update` when not quitting |
| Runner.Globals.constructor | Runtime/Managers/HookRunner.cs:10-11 | at start there is no runner and the quitting flag is off |
| Runner.Globals.Instance | Runtime/Managers/HookRunner.cs:14-27 | null once quitting; otherwise the existing singleton if there is one, else the runner found in the scene, else a fresh runner with the loaded configuration, and that runner becomes the singleton that later calls return |
| Runner.Globals.OnApplicationQuit | Runtime/Managers/HookRunner.cs:40-43 | raises the quitting flag and keeps the singleton |
| Provider.Register | Runtime/Managers/HookSystemProvider.cs:7-11 | while quitting, changes nothing; otherwise the singleton (existing, found or created, in that order) gains one fresh tracker at the end, for the target, with the interval as given (-1 when omitted, falling back to the tick rate), and its earlier trackers are kept |
| Provider.Unregister | Runtime/Managers/HookSystemProvider.cs:13-17 | while quitting, changes nothing; otherwise the singleton's list becomes `RemoveLastMatch` of its previous list for the target |
| Scenario.HealthBinding | Runtime/Demo/HookSystemDemo.cs:11-12 | the demo's only binding is its health field, bound to the `OnHealthChanged` method and seeded with the current health |
| Scenario.HealthDispatch | Runtime/Demo/HookSystemDemo.cs:30-42 | checking that binding after health drops from 100 to 90 calls `OnHealthChanged(100, 90)` once |
| Scenario.HealthDrop | Runtime/Behaviours/HookableMono.cs:8-10 | the demo registered with the default interval -1 on a runner with the default configuration: after health drops to 90, a first frame of 0.005 is below the 0.01 tick rate and calls nothing; the second frame's `Update` calls `OnHealthChanged(100, 90)` once and nothing else |

## Left out

- Reflection is not modelled. `GetMembers`, `GetCustomAttribute`, `GetField`/`GetMethod`, `DynamicInvoke` and `Invoke` are replaced by an object's given member list, its delegate-typed fields and its method names. Signature compatibility of a callback and overload ambiguity in `GetMethod` are not modelled.
- Callback invocation is recorded, not performed. A callback that throws would skip the last-value update. A callback that re-enters `Register` or `Unregister` during `Update` would change the list being walked. The source does not define either case, and neither is modelled.
- Because callbacks are not performed, every value read during one `Update` comes from its single `world` argument. A callback that writes a watched member is therefore not seen by the later bindings of the same check (Runtime/Managers/HookTracker.cs:60-68), nor by the trackers visited later in the same frame (Runtime/Managers/HookRunner.cs:72-85); in the source both would read the new value.
- Weak references and garbage collection become the `World` map: an id that is not a key has been reclaimed. Unity's overloaded liveness test becomes the `isUnityObject` and `destroyed` flags.
- Time is `real`. IEEE `float` rounding of the accumulator and NaN frame times are not modelled.
- `Time.unscaledDeltaTime` becomes the `dt` parameter of `Update`.
- Configuration loading becomes a parameter. `Resources.Load` and `ScriptableObject.CreateInstance` are replaced by an optional asset, with the asset's field defaults (Runtime/Structures/HookConfig.cs:9-10) as the fallback. The editor's [0.01, 2] range on the tick rate is not enforced.
- The scene search in `Instance` becomes the `found` parameter. Creating the global GameObject becomes allocating a runner.
- `Debug.Log` output is not modelled, so `EnableDebugLogs` has no effect.
- Unity's object lifecycle is not modelled:
  - `DontDestroyOnLoad`;
  - the branch in `Awake` that destroys a second runner;
  - the destruction of the runner itself.
- `Equals` on boxed values uses the four value kinds in `Value`. User-defined `Equals` overrides are not modelled.
- A field or property slot that an object does not define reads as null.
- A property getter is assumed to be side-effect free and not to throw.
- Structures.HookData.GetCurrentValue: for a property without a getter it reads the property's slot, where the source's `GetValue` would throw. Bindings never hold such a property, because `CacheHooks` skips it, so the engine never reaches this case.
- Runner.HookRunner.Register: it keeps the source's requirement that the target is a live object (`target in world`), because the tracker's constructor reads the target's members. Registering a null target would throw in the source.
- The editor (Editor/HookEditor.cs), the demo's UI and input handling (Runtime/Demo/HookSystemDemo.cs) and the lifecycle glue in Runtime/Behaviours are not part of this model. The `HookableObject` finalizer amounts to an `Unregister` call at an arbitrary time, which `Provider.Unregister` covers.
