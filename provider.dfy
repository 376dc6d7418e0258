// HookSystemProvider: the static entry points that forward registration and
// unregistration to the runner singleton, and do nothing once the
// application is quitting.

module Provider {
  import opened Host
  import opened Structures
  import opened Tracker
  import opened Runner

  /** `Register`: fetches the runner through `Instance` (which may adopt the
      runner `found` in the scene or create one with configuration `loaded`)
      and appends a tracker for `target` to it; a no-op while quitting. An
      omitted interval is -1, so the runner's global tick rate applies. */
  method Register(g: Globals, found: HookRunner?, loaded: Option<HookConfig>,
                  world: World, target: ObjId, interval: real := -1.0)
    requires g.Valid() && (found != null ==> found.Valid())
    requires target in world
    modifies g, g.instance, found
    ensures g.Valid() && g.isQuitting == old(g.isQuitting)
    ensures old(g.isQuitting) ==>
              g.instance == old(g.instance) &&
              (old(g.instance) != null ==> unchanged(old(g.instance))) &&
              (found != null ==> unchanged(found))
    ensures old(g.instance) != null && found != null && found != old(g.instance) ==> unchanged(found)
    ensures !old(g.isQuitting) ==>
              g.instance != null &&
              (old(g.instance) != null ==> g.instance == old(g.instance)) &&
              (old(g.instance) == null && found != null ==> g.instance == found) &&
              (old(g.instance) == null && found == null ==>
                 fresh(g.instance) && g.instance.config == LoadConfig(loaded))
    ensures !old(g.isQuitting) ==>
              var prior := if old(g.instance) != null then old(g.instance.trackers)
                           else if found != null then old(found.trackers) else [];
              var r := g.instance;
              |r.trackers| == |prior| + 1 && r.trackers[..|prior|] == prior &&
              var t := r.trackers[|prior|];
              fresh(t) && t.target == target &&
              t.interval == ResolveInterval(interval, r.config) && t.timer == 0.0 &&
              t.hooks == Bindings(world[target].members, world[target])
  {
    var runner := g.Instance(found, loaded);
    if runner == null {
      return;
    }
    runner.Register(target, interval, world);
  }

  /** `Unregister`: fetches the runner through `Instance` and removes the last
      tracker whose target resolves to `target`; a no-op while quitting. */
  method Unregister(g: Globals, found: HookRunner?, loaded: Option<HookConfig>,
                    world: World, target: ObjId)
    requires g.Valid() && (found != null ==> found.Valid())
    modifies g, g.instance, found
    ensures g.Valid() && g.isQuitting == old(g.isQuitting)
    ensures old(g.isQuitting) ==>
              g.instance == old(g.instance) &&
              (old(g.instance) != null ==> unchanged(old(g.instance))) &&
              (found != null ==> unchanged(found))
    ensures old(g.instance) != null && found != null && found != old(g.instance) ==> unchanged(found)
    ensures !old(g.isQuitting) ==>
              g.instance != null &&
              (old(g.instance) != null ==> g.instance == old(g.instance)) &&
              (old(g.instance) == null && found != null ==> g.instance == found) &&
              (old(g.instance) == null && found == null ==>
                 fresh(g.instance) && g.instance.config == LoadConfig(loaded))
    ensures !old(g.isQuitting) ==>
              var prior := if old(g.instance) != null then old(g.instance.trackers)
                           else if found != null then old(found.trackers) else [];
              g.instance.trackers == RemoveLastMatch(prior, target, world)
  {
    var runner := g.Instance(found, loaded);
    if runner == null {
      return;
    }
    runner.Unregister(target, world);
  }
}
