// The demo behaviour's health counter as a worked example: a `HookVar` int
// field bound to the `OnHealthChanged` method, starting at 100 and lowered
// by 10 on a key press. The behaviour registers itself with the default
// interval -1, so the runner's configured tick rate applies.

module Scenario {
  import opened Host
  import opened Structures
  import opened Tracker
  import opened Runner

  const HealthHook := MemberDecl(FieldInfo(0), Some(HookVar(Some("OnHealthChanged"))))

  /** The demo object with its health field holding `health`. */
  function Demo(health: int): ObjectState
  {
    ObjectState([HealthHook], map[0 := Boxed("Int32", health)], map[], map[],
                {"Awake", "Update", "OnHealthChanged"}, true, false)
  }

  /** Registration finds the one binding: the health field, bound to the
      `OnHealthChanged` method and seeded with the health at that moment. */
  lemma HealthBinding(health: int)
    ensures Bindings(Demo(health).members, Demo(health)) ==
              [HookData(FieldInfo(0), Boxed("Int32", health), Some("OnHealthChanged"), None)]
  {
    assert [HealthHook][..0] == [];
  }

  /** A check of that binding after health went from 100 to 90 calls
      `OnHealthChanged(100, 90)`, once. */
  lemma HealthDispatch(id: ObjId)
    ensures Dispatches(id, Bindings(Demo(100).members, Demo(100)), Demo(90)) ==
              [Invocation(id, 0, MethodCall("OnHealthChanged"), Boxed("Int32", 100), Boxed("Int32", 90))]
  {
    HealthBinding(100);
    var hooks := [HookData(FieldInfo(0), Boxed("Int32", 100), Some("OnHealthChanged"), None)];
    assert hooks[..0] == [];
  }

  /** A runner with the default configuration (tick rate 0.01) registers the
      demo at 100 health; health then drops to 90. Over two frames of 0.005
      each, the first frame's tick is not due and calls nothing; the second
      reaches the tick rate, and its check calls `OnHealthChanged(100, 90)`
      once and nothing else. */
  method HealthDrop(id: ObjId) returns (firstCalls: seq<Invocation>, secondCalls: seq<Invocation>)
    ensures firstCalls == []
    ensures secondCalls == [Invocation(id, 0, MethodCall("OnHealthChanged"), Boxed("Int32", 100), Boxed("Int32", 90))]
  {
    var globals := new Globals();
    var runner := new HookRunner(None);
    runner.Register(id, -1.0, map[id := Demo(100)]);
    var t := runner.trackers[0];
    assert runner.trackers == [t];
    ghost var hooks0 := t.hooks;
    assert t.interval == 0.01 && t.timer == 0.0;

    var world := map[id := Demo(90)];
    assert Survives(t, world);
    label first:
    firstCalls := runner.Update(globals, 0.005, world);
    assert t in old@first(runner.trackers);
    assert Stepped(t, 0.0, hooks0, t.timer, t.hooks, world, 0.005);
    assert t.timer == 0.005 && t.hooks == hooks0;
    assert [t][1..] == [];
    assert runner.trackers == [t];
    secondCalls := runner.Update(globals, 0.005, world);
    assert secondCalls == Dispatches(id, hooks0, Demo(90));
    HealthDispatch(id);
  }
}
