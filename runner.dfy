// HookRunner: the registry of trackers, its per-frame update with eviction of
// reclaimed or destroyed targets, and the lazily created singleton that the
// runner's static fields hold.

module Runner {
  import opened Host
  import opened Structures
  import opened Tracker

  /** `IsUnityObjectDead`: an object that derives from the engine's object
      base class and has been destroyed; any other object is never dead. */
  predicate IsUnityObjectDead(obj: ObjectState)
    ensures obj.isUnityObject ==> (IsUnityObjectDead(obj) <==> obj.destroyed)
    ensures !obj.isUnityObject ==> !IsUnityObjectDead(obj)
  {
    obj.isUnityObject && obj.destroyed
  }

  /** The tracker's weak reference resolves to an object that is not dead. */
  predicate Survives(t: HookTracker, world: World)
  {
    t.target in world && !IsUnityObjectDead(world[t.target])
  }

  /** `TryGetTarget(out var t) && t == target`. */
  predicate Matches(t: HookTracker, target: ObjId, world: World)
  {
    t.target in world && t.target == target
  }

  /** No tracker object occurs twice in the list. */
  predicate Distinct(ts: seq<HookTracker>)
  {
    ts == [] || (ts[0] !in ts[1..] && Distinct(ts[1..]))
  }

  /** `Distinct`, stated on positions. */
  predicate Pairwise(ts: seq<HookTracker>)
  {
    forall a, b :: 0 <= a < b < |ts| ==> ts[a] != ts[b]
  }

  lemma {:induction false} DistinctPairwise(ts: seq<HookTracker>)
    requires Distinct(ts)
    ensures Pairwise(ts)
  {
    if ts != [] {
      DistinctPairwise(ts[1..]);
      forall a, b | 0 <= a < b < |ts| ensures ts[a] != ts[b] {
        assert ts[b] == ts[1..][b - 1];
        if a > 0 {
          assert ts[a] == ts[1..][a - 1];
        }
      }
    }
  }

  lemma {:induction false} PairwiseDistinct(ts: seq<HookTracker>)
    requires Pairwise(ts)
    ensures Distinct(ts)
  {
    if ts != [] {
      var rest := ts[1..];
      forall a, b | 0 <= a < b < |rest| ensures rest[a] != rest[b] {
        assert rest[a] == ts[a + 1] && rest[b] == ts[b + 1];
      }
      PairwiseDistinct(rest);
      forall k | 0 <= k < |rest| ensures rest[k] != ts[0] {
        assert rest[k] == ts[k + 1];
      }
    }
  }

  /** Appending a tracker that is not yet listed keeps the list distinct. */
  lemma {:induction false} DistinctAppend(ts: seq<HookTracker>, t: HookTracker)
    requires Distinct(ts) && t !in ts
    ensures Distinct(ts + [t])
  {
    if ts != [] {
      assert (ts + [t])[1..] == ts[1..] + [t];
      DistinctAppend(ts[1..], t);
    }
  }

  /** The polling period of a new tracker: the caller's, when positive, else
      the configuration's global tick rate. */
  function ResolveInterval(interval: real, config: HookConfig): (r: real)
    ensures interval > 0.0 ==> r == interval
    ensures interval <= 0.0 ==> r == config.globalTickRate
    ensures 0.0 < config.globalTickRate ==> 0.0 < r
  {
    if interval > 0.0 then interval else config.globalTickRate
  }

  // ---------------------------------------------------------------------------
  // Eviction (`Update`)
  // ---------------------------------------------------------------------------

  /** The trackers that `Update` keeps, in their original order. */
  function Survivors(ts: seq<HookTracker>, world: World): (rs: seq<HookTracker>)
    ensures |rs| <= |ts|
  {
    if ts == [] then []
    else (if Survives(ts[0], world) then [ts[0]] else []) + Survivors(ts[1..], world)
  }

  /** `Update` keeps exactly the trackers whose target survives. */
  lemma {:induction false} SurvivorsSpec(ts: seq<HookTracker>, world: World)
    ensures forall t :: t in Survivors(ts, world) ==> t in ts && Survives(t, world)
    ensures forall t :: t in ts && Survives(t, world) ==> t in Survivors(ts, world)
  {
    if ts != [] {
      SurvivorsSpec(ts[1..], world);
      assert ts == [ts[0]] + ts[1..];
    }
  }

  /** Eviction preserves relative order: it works on each part of a list
      independently. */
  lemma {:induction false} SurvivorsAppend(a: seq<HookTracker>, b: seq<HookTracker>, world: World)
    ensures Survivors(a + b, world) == Survivors(a, world) + Survivors(b, world)
  {
    if a == [] {
      assert a + b == b;
    } else {
      assert (a + b)[0] == a[0] && (a + b)[1..] == a[1..] + b;
      SurvivorsAppend(a[1..], b, world);
    }
  }

  /** When every target is alive, `Update` evicts nothing. */
  lemma {:induction false} SurvivorsKeepAll(ts: seq<HookTracker>, world: World)
    requires forall j :: 0 <= j < |ts| ==> Survives(ts[j], world)
    ensures Survivors(ts, world) == ts
  {
    if ts != [] {
      SurvivorsKeepAll(ts[1..], world);
    }
  }

  /** When exactly the tracker at `e` has lost its target, `Update` removes
      that one entry and keeps the rest in order. */
  lemma {:induction false} SurvivorsDropOne(ts: seq<HookTracker>, e: nat, world: World)
    requires e < |ts| && !Survives(ts[e], world)
    requires forall j :: 0 <= j < |ts| && j != e ==> Survives(ts[j], world)
    ensures Survivors(ts, world) == ts[..e] + ts[e + 1..]
  {
    if e == 0 {
      SurvivorsKeepAll(ts[1..], world);
    } else {
      SurvivorsDropOne(ts[1..], e - 1, world);
      assert ts[..e] == [ts[0]] + ts[1..][..e - 1];
      assert ts[e + 1..] == ts[1..][e..];
    }
  }

  /** Eviction never duplicates a tracker. */
  lemma {:induction false} SurvivorsDistinct(ts: seq<HookTracker>, world: World)
    requires Distinct(ts)
    ensures Distinct(Survivors(ts, world))
  {
    if ts != [] {
      SurvivorsDistinct(ts[1..], world);
      SurvivorsSpec(ts[1..], world);
      var rest := Survivors(ts[1..], world);
      var rs := Survivors(ts, world);
      if Survives(ts[0], world) {
        assert rs == [ts[0]] + rest;
        assert rs[0] == ts[0] && rs[1..] == rest;
      } else {
        assert rs == rest;
      }
    }
  }

  /** One step of the backward walk over `all`, seen on the eviction spec. */
  lemma SurvivorsStep(all: seq<HookTracker>, i: nat, world: World)
    requires i < |all|
    ensures Survivors(all[i..], world) ==
              (if Survives(all[i], world) then [all[i]] else []) + Survivors(all[i + 1..], world)
  {
    assert all[i..][1..] == all[i + 1..];
  }

  /** The list during the backward walk: an untouched prefix, then the
      survivors of the suffix already visited. */
  lemma WalkStep(ts: seq<HookTracker>, all: seq<HookTracker>, i: nat, rest: seq<HookTracker>)
    requires i < |all| && ts == all[..i + 1] + rest
    ensures ts[i] == all[i]
    ensures ts[..i] + ts[i + 1..] == all[..i] + rest
    ensures ts == all[..i] + ([all[i]] + rest)
  {
    assert all[..i + 1] == all[..i] + [all[i]];
  }

  /** One step of `Update`'s backward walk, seen on the eviction spec: the
      entry at `i` is still the original one, and keeping it (when it
      survives) or removing it (when it does not) extends the processed
      suffix by one. */
  lemma EvictStep(ts: seq<HookTracker>, all: seq<HookTracker>, i: nat, world: World)
    requires i < |all| && ts == all[..i + 1] + Survivors(all[i + 1..], world)
    ensures i < |ts| && ts[i] == all[i]
    ensures Survives(all[i], world) ==> ts == all[..i] + Survivors(all[i..], world)
    ensures !Survives(all[i], world) ==> ts[..i] + ts[i + 1..] == all[..i] + Survivors(all[i..], world)
  {
    WalkStep(ts, all, i, Survivors(all[i + 1..], world));
    SurvivorsStep(all, i, world);
  }

  /** In a list without repetitions, the entry at `i` occurs neither
      before nor after `i`; the two sides and the entry make up the list. */
  lemma Isolated(all: seq<HookTracker>, i: nat)
    requires Distinct(all) && i < |all|
    ensures all[i] !in all[..i] && all[i] !in all[i + 1..]
    ensures all[..i + 1] == all[..i] + [all[i]] && all[i..] == [all[i]] + all[i + 1..]
  {
    DistinctPairwise(all);
    var after := all[i + 1..];
    forall k | 0 <= k < |after| ensures after[k] != all[i] {
      assert after[k] == all[i + 1 + k];
    }
  }

  /** The callbacks one surviving, due tracker calls this frame. */
  function TrackerCalls(t: HookTracker, world: World, dt: real): seq<Invocation>
    reads t
  {
    if Survives(t, world) && Due(t.timer, t.interval, dt)
    then Dispatches(t.target, t.hooks, world[t.target])
    else []
  }

  /** The callbacks one `Update` calls: trackers are visited from the last to
      the first. */
  function FrameCalls(ts: seq<HookTracker>, world: World, dt: real): seq<Invocation>
    reads ts
  {
    if ts == [] then []
    else FrameCalls(ts[1..], world, dt) + TrackerCalls(ts[0], world, dt)
  }

  /** Evicted trackers are not checked: every callback of a frame is made
      on behalf of a surviving tracker's target, for a changed binding. */
  lemma {:induction false} FrameCallsFromSurvivors(ts: seq<HookTracker>, world: World, dt: real)
    ensures forall c :: c in FrameCalls(ts, world, dt) ==>
              exists t :: t in ts && Survives(t, world) && c.target == t.target &&
                          c.oldValue != c.newValue
  {
    if ts != [] {
      FrameCallsFromSurvivors(ts[1..], world, dt);
      var t := ts[0];
      if Survives(t, world) && Due(t.timer, t.interval, dt) {
        DispatchesSound(t.target, t.hooks, world[t.target]);
      }
      forall c | c in FrameCalls(ts, world, dt)
        ensures exists u :: u in ts && Survives(u, world) && c.target == u.target && c.oldValue != c.newValue
      {
        if c in FrameCalls(ts[1..], world, dt) {
          var u :| u in ts[1..] && Survives(u, world) && c.target == u.target && c.oldValue != c.newValue;
          assert u in ts;
        } else {
          assert t in ts;
        }
      }
    }
  }

  /** What `Update` does to one tracker it had at the start: a survivor is
      ticked once, and checked exactly when the tick is due; an evicted
      tracker is left as it was. */
  twostate predicate Advanced(t: HookTracker, world: World, dt: real)
    reads t
  {
    Stepped(t, old(t.timer), old(t.hooks), t.timer, t.hooks, world, dt)
  }

  /** A tracker whose state is as it was. */
  twostate predicate Untouched(t: HookTracker)
    reads t
  {
    t.timer == old(t.timer) && t.hooks == old(t.hooks)
  }

  /** `Advanced`, on the tracker's state before (`timer0`, `hooks0`) and
      after (`timer`, `hooks`) the frame. */
  predicate Stepped(t: HookTracker, timer0: real, hooks0: seq<HookData>,
                    timer: real, hooks: seq<HookData>, world: World, dt: real)
  {
    if Survives(t, world) then
      timer == NextTimer(timer0, t.interval, dt) &&
      hooks == (if Due(timer0, t.interval, dt) then Refreshed(hooks0, world[t.target]) else hooks0)
    else
      timer == timer0 && hooks == hooks0
  }

  // ---------------------------------------------------------------------------
  // Removal (`Unregister`)
  // ---------------------------------------------------------------------------

  /** The highest index whose tracker resolves to `target`, or -1. */
  function LastMatch(ts: seq<HookTracker>, target: ObjId, world: World): (k: int)
    ensures -1 <= k < |ts|
    ensures k >= 0 ==> Matches(ts[k], target, world)
    ensures forall j :: k < j < |ts| ==> !Matches(ts[j], target, world)
  {
    if ts == [] then -1
    else if Matches(ts[|ts| - 1], target, world) then |ts| - 1
    else LastMatch(ts[..|ts| - 1], target, world)
  }

  /** The list after `Unregister(target)`: the most recently added tracker
      resolving to `target` is removed, the others keep their order. */
  function RemoveLastMatch(ts: seq<HookTracker>, target: ObjId, world: World): (rs: seq<HookTracker>)
    ensures (exists j :: 0 <= j < |ts| && Matches(ts[j], target, world)) ==> |rs| == |ts| - 1
    ensures (forall j :: 0 <= j < |ts| ==> !Matches(ts[j], target, world)) ==> rs == ts
  {
    var k := LastMatch(ts, target, world);
    if k < 0 then ts else ts[..k] + ts[k + 1..]
  }

  /** Removing one entry keeps a list free of repetitions. */
  lemma DistinctRemove(ts: seq<HookTracker>, i: nat)
    requires Distinct(ts) && i < |ts|
    ensures Distinct(ts[..i] + ts[i + 1..])
  {
    DistinctPairwise(ts);
    var rs := ts[..i] + ts[i + 1..];
    forall a, b | 0 <= a < b < |rs| ensures rs[a] != rs[b] {
      assert rs[a] == ts[if a < i then a else a + 1];
      assert rs[b] == ts[if b < i then b else b + 1];
    }
    PairwiseDistinct(rs);
  }

  /** Registering and then unregistering the same live object gives back
      the list it started from, even when the object was registered before. */
  lemma UnregisterUndoesRegister(ts: seq<HookTracker>, t: HookTracker, world: World)
    requires t.target in world
    ensures RemoveLastMatch(ts + [t], t.target, world) == ts
  {
    assert (ts + [t])[..|ts|] == ts;
  }

  /** When at most one tracker resolves to `target`, a second `Unregister`
      changes nothing. */
  lemma UnregisterTwiceIsOnce(ts: seq<HookTracker>, target: ObjId, world: World)
    requires forall a, b :: 0 <= a < b < |ts| && Matches(ts[a], target, world) ==> !Matches(ts[b], target, world)
    ensures RemoveLastMatch(RemoveLastMatch(ts, target, world), target, world) == RemoveLastMatch(ts, target, world)
  {
    var k := LastMatch(ts, target, world);
    if k >= 0 {
      var rs := ts[..k] + ts[k + 1..];
      forall j | 0 <= j < |rs| ensures !Matches(rs[j], target, world) {
        if j < k {
          assert rs[j] == ts[j];
        } else {
          assert rs[j] == ts[j + 1];
        }
      }
    }
  }

  // ---------------------------------------------------------------------------
  // The runner
  // ---------------------------------------------------------------------------

  class HookRunner {
    var trackers: seq<HookTracker>
    /** Assigned once, by `LoadConfig` during `Awake`. */
    const config: HookConfig

    ghost predicate Valid()
      reads this
    {
      Distinct(trackers)
    }

    /** `Awake` on a new runner: no trackers, and the configuration loaded. */
    constructor (loaded: Option<HookConfig>)
      ensures Valid() && trackers == [] && config == LoadConfig(loaded)
    {
      trackers := [];
      config := LoadConfig(loaded);
    }

    /** Appends one new tracker for `target`, seeded from its current state. */
    method Register(target: ObjId, interval: real, world: World)
      requires Valid() && target in world
      modifies this
      ensures Valid()
      ensures |trackers| == |old(trackers)| + 1 && trackers[..|old(trackers)|] == old(trackers)
      ensures var t := trackers[|old(trackers)|];
              fresh(t) && t.target == target && t.interval == ResolveInterval(interval, config) &&
              t.timer == 0.0 && t.hooks == Bindings(world[target].members, world[target])
      ensures forall t :: t in old(trackers) ==> unchanged(t)
    {
      var finalInterval := if interval > 0.0 then interval else config.globalTickRate;
      var tracker := new HookTracker(target, world[target], finalInterval);
      DistinctAppend(trackers, tracker);
      trackers := trackers + [tracker];
    }

    /** Removes the last tracker whose target resolves to `target`, if any. */
    method Unregister(target: ObjId, world: World)
      requires Valid()
      modifies this
      ensures Valid()
      ensures trackers == RemoveLastMatch(old(trackers), target, world)
    {
      var i := |trackers| - 1;
      while i >= 0
        invariant -1 <= i < |trackers|
        invariant trackers == old(trackers)
        invariant forall j :: i < j < |trackers| ==> !Matches(trackers[j], target, world)
      {
        var t := trackers[i];
        if t.target in world && t.target == target {
          assert LastMatch(trackers, target, world) == i;
          DistinctRemove(trackers, i);
          trackers := trackers[..i] + trackers[i + 1..];
          return;
        }
        i := i - 1;
      }
    }

    /** The loop body of `Update` for one tracker: an evicted tracker is
        left as it was; a surviving one is ticked and, when due, checked. */
    static method Visit(tracker: HookTracker, dt: real, world: World)
        returns (alive: bool, made: seq<Invocation>)
      modifies tracker
      ensures alive == Survives(tracker, world)
      ensures made == old(TrackerCalls(tracker, world, dt))
      ensures Stepped(tracker, old(tracker.timer), old(tracker.hooks), tracker.timer, tracker.hooks, world, dt)
    {
      made := [];
      if !(tracker.target in world) || IsUnityObjectDead(world[tracker.target]) {
        return false, [];
      }
      alive := true;
      var due := tracker.Tick(dt);
      if due {
        made := tracker.CheckChanges(world[tracker.target]);
      }
    }

    /** One frame: unless quitting, walks the trackers from the last to the
        first, evicting those whose target is gone or dead, ticking the rest
        and checking the ones that are due. Returns the callbacks made. */
    method Update(globals: Globals, dt: real, world: World) returns (calls: seq<Invocation>)
      requires Valid()
      modifies this, trackers
      ensures Valid()
      ensures globals.isQuitting ==>
                trackers == old(trackers) && calls == [] &&
                forall t :: t in old(trackers) ==> unchanged(t)
      ensures !globals.isQuitting ==>
                trackers == Survivors(old(trackers), world) &&
                calls == old(FrameCalls(trackers, world, dt)) &&
                forall t :: t in old(trackers) ==> Advanced(t, world, dt)
    {
      calls := [];
      if globals.isQuitting {
        return;
      }
      calls := Sweep(dt, world);
    }

    /** The walk of `Update` over the trackers, from the last to the first. */
    method Sweep(dt: real, world: World) returns (calls: seq<Invocation>)
      requires Valid()
      modifies this, trackers
      ensures Valid()
      ensures trackers == Survivors(old(trackers), world)
      ensures calls == old(FrameCalls(trackers, world, dt))
      ensures forall t :: t in old(trackers) ==> Advanced(t, world, dt)
    {
      calls := [];
      ghost var all := trackers;
      var i := |trackers| - 1;
      while i >= 0
        invariant -1 <= i < |all|
        invariant trackers == all[..i + 1] + Survivors(all[i + 1..], world)
        invariant forall t :: t in all[..i + 1] ==> Untouched(t)
        invariant forall t :: t in all[i + 1..] ==> Advanced(t, world, dt)
        invariant calls == old(FrameCalls(all[i + 1..], world, dt))
      {
        EvictStep(trackers, all, i, world);
        Isolated(all, i);
        assert old(FrameCalls(all[i..], world, dt)) ==
               old(FrameCalls(all[i + 1..], world, dt)) + old(TrackerCalls(all[i], world, dt));
        assert all[i] in all[..i + 1];
        assert Untouched(all[i]);
        var alive, made := Visit(trackers[i], dt, world);
        assert Advanced(all[i], world, dt);
        if !alive {
          trackers := trackers[..i] + trackers[i + 1..];
        }
        calls := calls + made;
        i := i - 1;
      }
      assert all[0..] == all && all[..0] == [];
      assert trackers == Survivors(all, world);
      SurvivorsDistinct(all, world);
    }
  }

  /** The runner's static fields: the singleton and the quitting flag. */
  class Globals {
    var instance: HookRunner?
    var isQuitting: bool

    ghost predicate Valid()
      reads this, instance
    {
      instance != null ==> instance.Valid()
    }

    /** Process start: no runner, not quitting. */
    constructor ()
      ensures Valid() && instance == null && !isQuitting
    {
      instance := null;
      isQuitting := false;
    }

    /** `HookRunner.Instance`: null once quitting; otherwise the current
        singleton, else the runner `found` in the scene, else a new runner
        whose configuration is `loaded` (or the defaults). */
    method Instance(found: HookRunner?, loaded: Option<HookConfig>) returns (r: HookRunner?)
      requires Valid() && (found != null ==> found.Valid())
      modifies this
      ensures Valid() && isQuitting == old(isQuitting)
      ensures isQuitting ==> r == null && instance == old(instance)
      ensures !isQuitting ==> r != null && r == instance
      ensures !isQuitting && old(instance) != null ==> r == old(instance)
      ensures !isQuitting && old(instance) == null && found != null ==> r == found
      ensures !isQuitting && old(instance) == null && found == null ==>
                fresh(r) && r.trackers == [] && r.config == LoadConfig(loaded)
    {
      if isQuitting {
        return null;
      }
      if instance != null {
        return instance;
      }
      instance := found;
      if instance != null {
        return instance;
      }
      instance := new HookRunner(loaded);
      return instance;
    }

    /** `OnApplicationQuit`: raises the quitting flag for good. */
    method OnApplicationQuit()
      modifies this
      ensures isQuitting && instance == old(instance)
    {
      isQuitting := true;
    }
  }
}
