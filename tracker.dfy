// HookTracker: one registered object's bindings, its polling timer, and the
// change check that dispatches `(old, new)` to the bound callbacks.

module Tracker {
  import opened Host
  import opened Structures

  /** The callback a dispatch calls. */
  datatype Handler = DelegateCall(delegate: DelegateId) | MethodCall(methodName: string)

  /** One callback invocation made by `CheckChanges`: on behalf of object
      `target`, for binding number `binding`, with arguments `(oldValue, newValue)`. */
  datatype Invocation = Invocation(
    target: ObjId, binding: nat, handler: Handler, oldValue: Value, newValue: Value)

  // ---------------------------------------------------------------------------
  // Binding discovery (`CacheHooks`)
  // ---------------------------------------------------------------------------

  /** A field, or a property with a getter. */
  predicate IsWatchable(m: MemberInfo)
  {
    m.FieldInfo? || (m.PropertyInfo? && m.canRead)
  }

  /** A member that becomes a binding: it carries `HookVar` and is watchable. */
  predicate IsHooked(d: MemberDecl)
  {
    d.hookVar.Some? && IsWatchable(d.member)
  }

  /** The binding built for a marked member: seeded with the member's value
      now, and with the callback named by the marker resolved first as a
      delegate-typed field (capturing the delegate it holds now), else as an
      instance method. */
  function NewBinding(d: MemberDecl, target: ObjectState): (data: HookData)
    requires d.hookVar.Some?
    ensures data.member == d.member
    ensures data.lastValue == data.GetCurrentValue(target)
    ensures data.callbackEvent.None? || data.callbackMethod.None?
    ensures d.hookVar.value.hookMethod in {None, Some("")} ==>
              data.callbackEvent.None? && data.callbackMethod.None?
    ensures data.callbackEvent.Some? ==>
              var name := d.hookVar.value.hookMethod;
              name.Some? && name.value in target.delegateFields &&
              target.delegateFields[name.value] == data.callbackEvent
    ensures data.callbackMethod.Some? ==>
              d.hookVar.value.hookMethod == data.callbackMethod &&
              data.callbackMethod.value in target.methods &&
              data.callbackMethod.value !in target.delegateFields
    ensures var name := d.hookVar.value.hookMethod;
            name.Some? && name.value != "" && name.value in target.delegateFields ==>
              data.callbackEvent == target.delegateFields[name.value]
    ensures var name := d.hookVar.value.hookMethod;
            name.Some? && name.value != "" && name.value !in target.delegateFields &&
            name.value in target.methods ==>
              data.callbackMethod == name
  {
    var blank := HookData(d.member, Null, None, None);
    var data := blank.(lastValue := blank.GetCurrentValue(target));
    var name := d.hookVar.value.hookMethod;
    if name.None? || name.value == "" then data
    else if name.value in target.delegateFields then
      data.(callbackEvent := target.delegateFields[name.value])
    else
      data.(callbackMethod := if name.value in target.methods then name else None)
  }

  /** The bindings of an object whose members are `decls`, in member order. */
  function Bindings(decls: seq<MemberDecl>, target: ObjectState): (hooks: seq<HookData>)
    ensures |hooks| <= |decls|
    ensures forall k :: 0 <= k < |hooks| ==>
              IsWatchable(hooks[k].member) &&
              hooks[k].lastValue == hooks[k].GetCurrentValue(target) &&
              (hooks[k].callbackEvent.None? || hooks[k].callbackMethod.None?)
  {
    if decls == [] then []
    else
      var d := decls[|decls| - 1];
      Bindings(decls[..|decls| - 1], target) + (if IsHooked(d) then [NewBinding(d, target)] else [])
  }

  /** The number of marked, watchable members, counted independently of `Bindings`. */
  function HookedCount(decls: seq<MemberDecl>): nat
  {
    if decls == [] then 0
    else (if IsHooked(decls[0]) then 1 else 0) + HookedCount(decls[1..])
  }

  /** Discovery follows member enumeration order: the bindings of a
      concatenation are the bindings of the parts, one after the other. */
  lemma {:induction false} BindingsAppend(a: seq<MemberDecl>, b: seq<MemberDecl>, target: ObjectState)
    ensures Bindings(a + b, target) == Bindings(a, target) + Bindings(b, target)
    decreases |b|
  {
    if b == [] {
      assert a + b == a;
    } else {
      var n := |b| - 1;
      assert (a + b)[..|a + b| - 1] == a + b[..n];
      assert (a + b)[|a + b| - 1] == b[n];
      BindingsAppend(a, b[..n], target);
    }
  }

  /** Exactly the marked, watchable members become bindings, each once. */
  lemma {:induction false} BindingsCount(decls: seq<MemberDecl>, target: ObjectState)
    ensures |Bindings(decls, target)| == HookedCount(decls)
  {
    if decls != [] {
      assert decls == [decls[0]] + decls[1..];
      BindingsAppend([decls[0]], decls[1..], target);
      BindingsCount(decls[1..], target);
    }
  }

  /** Every binding is the one built for some marked, watchable member. */
  lemma {:induction false} BindingsFromMembers(decls: seq<MemberDecl>, target: ObjectState)
    ensures forall h :: h in Bindings(decls, target) ==>
              exists d :: d in decls && IsHooked(d) && h == NewBinding(d, target)
  {
    if decls != [] {
      var n := |decls| - 1;
      var front := decls[..n];
      BindingsFromMembers(front, target);
      forall h | h in Bindings(decls, target)
        ensures exists d :: d in decls && IsHooked(d) && h == NewBinding(d, target)
      {
        if h in Bindings(front, target) {
          var d :| d in front && IsHooked(d) && h == NewBinding(d, target);
          assert d in decls;
        } else {
          assert decls[n] in decls;
        }
      }
    }
  }

  // ---------------------------------------------------------------------------
  // Change detection (`CheckChanges`)
  // ---------------------------------------------------------------------------

  /** The callback a binding dispatches to: the captured delegate if there is
      one, else the resolved method, else none. */
  function PreferredHandler(data: HookData): Option<Handler>
  {
    if data.callbackEvent.Some? then Some(DelegateCall(data.callbackEvent.value))
    else if data.callbackMethod.Some? then Some(MethodCall(data.callbackMethod.value))
    else None
  }

  /** `!Equals(LastValue, current)`. */
  predicate Changed(data: HookData, target: ObjectState)
  {
    data.lastValue != data.GetCurrentValue(target)
  }

  /** What binding number `k` dispatches when checked against `target`. */
  function DispatchAt(owner: ObjId, k: nat, data: HookData, target: ObjectState): (calls: seq<Invocation>)
    ensures |calls| <= 1
    ensures forall c :: c in calls ==> c.binding == k
  {
    var current := data.GetCurrentValue(target);
    if data.lastValue == current then []
    else
      match PreferredHandler(data)
      case None => []
      case Some(h) => [Invocation(owner, k, h, data.lastValue, current)]
  }

  /** The invocations one change check makes, in the order it makes them:
      bindings are visited in list order, and each dispatches at most once. */
  function Dispatches(owner: ObjId, hooks: seq<HookData>, target: ObjectState): (calls: seq<Invocation>)
    ensures |calls| <= |hooks|
    ensures forall i :: 0 <= i < |calls| ==> calls[i].binding < |hooks|
    ensures forall i, j :: 0 <= i < j < |calls| ==> calls[i].binding < calls[j].binding
  {
    if hooks == [] then []
    else
      var k := |hooks| - 1;
      Dispatches(owner, hooks[..k], target) + DispatchAt(owner, k, hooks[k], target)
  }

  /** The bindings after a change check: every last value is the value just read. */
  function Refreshed(hooks: seq<HookData>, target: ObjectState): seq<HookData>
  {
    seq(|hooks|, k requires 0 <= k < |hooks| => hooks[k].(lastValue := hooks[k].GetCurrentValue(target)))
  }

  /** Every invocation belongs to a changed binding that has a callback, and
      passes its last value first and the value just read second. */
  lemma {:induction false} DispatchesSound(owner: ObjId, hooks: seq<HookData>, target: ObjectState)
    ensures forall c :: c in Dispatches(owner, hooks, target) ==>
              c.binding < |hooks| && c.target == owner &&
              Changed(hooks[c.binding], target) &&
              c.oldValue == hooks[c.binding].lastValue &&
              c.newValue == hooks[c.binding].GetCurrentValue(target) &&
              PreferredHandler(hooks[c.binding]) == Some(c.handler)
  {
    if hooks != [] {
      var k := |hooks| - 1;
      DispatchesSound(owner, hooks[..k], target);
      var front := Dispatches(owner, hooks[..k], target);
      var last := DispatchAt(owner, k, hooks[k], target);
      assert Dispatches(owner, hooks, target) == front + last;
      forall c | c in front ensures hooks[..k][c.binding] == hooks[c.binding] { }
      if last != [] {
        assert last == [Invocation(owner, k, PreferredHandler(hooks[k]).value,
                                   hooks[k].lastValue, hooks[k].GetCurrentValue(target))];
      }
    }
  }

  /** Every changed binding that has a callback is dispatched. */
  lemma {:induction false} DispatchesComplete(owner: ObjId, hooks: seq<HookData>, target: ObjectState)
    ensures forall b :: 0 <= b < |hooks| && Changed(hooks[b], target) && PreferredHandler(hooks[b]).Some? ==>
              exists c :: c in Dispatches(owner, hooks, target) && c.binding == b
  {
    if hooks != [] {
      var k := |hooks| - 1;
      DispatchesComplete(owner, hooks[..k], target);
      var front := Dispatches(owner, hooks[..k], target);
      var last := DispatchAt(owner, k, hooks[k], target);
      assert Dispatches(owner, hooks, target) == front + last;
      forall b | 0 <= b < |hooks| && Changed(hooks[b], target) && PreferredHandler(hooks[b]).Some?
        ensures exists c: Invocation :: c in front + last && c.binding == b
      {
        if b < k {
          assert hooks[..k][b] == hooks[b];
          var c :| c in front && c.binding == b;
          assert c in front + last;
        } else {
          assert last[0] in front + last && last[0].binding == b;
        }
      }
    }
  }

  /** A check against a target whose watched values all equal the last ones
      dispatches nothing. */
  lemma {:induction false} QuietWhenUnchanged(owner: ObjId, hooks: seq<HookData>, target: ObjectState)
    requires forall k :: 0 <= k < |hooks| ==> !Changed(hooks[k], target)
    ensures Dispatches(owner, hooks, target) == []
  {
    if hooks != [] {
      var k := |hooks| - 1;
      QuietWhenUnchanged(owner, hooks[..k], target);
    }
  }

  /** After a check, an immediately repeated check dispatches nothing. */
  lemma RecheckIsQuiet(owner: ObjId, hooks: seq<HookData>, target: ObjectState)
    ensures Dispatches(owner, Refreshed(hooks, target), target) == []
  {
    QuietWhenUnchanged(owner, Refreshed(hooks, target), target);
  }

  /** Registration seeds the last values, so a check against the object as
      it was at registration dispatches nothing. */
  lemma SeededIsQuiet(owner: ObjId, target: ObjectState)
    ensures Dispatches(owner, Bindings(target.members, target), target) == []
  {
    QuietWhenUnchanged(owner, Bindings(target.members, target), target);
  }

  // ---------------------------------------------------------------------------
  // The polling timer (`Tick`)
  // ---------------------------------------------------------------------------

  /** Whether a tick of `dt` on a timer at `timer` reaches the interval. */
  predicate Due(timer: real, interval: real, dt: real)
  {
    timer + dt >= interval
  }

  /** The timer after such a tick: reset when due, else accumulated. */
  function NextTimer(timer: real, interval: real, dt: real): real
  {
    if Due(timer, interval, dt) then 0.0 else timer + dt
  }

  function Sum(dts: seq<real>): real
  {
    if dts == [] then 0.0 else dts[0] + Sum(dts[1..])
  }

  /** The number of ticks that fire over a run of frame times, and the
      timer at the end. */
  function TickRun(timer: real, interval: real, dts: seq<real>): (nat, real)
    decreases |dts|
  {
    if dts == [] then (0, timer)
    else
      var rest := TickRun(NextTimer(timer, interval, dts[0]), interval, dts[1..]);
      (rest.0 + (if Due(timer, interval, dts[0]) then 1 else 0), rest.1)
  }

  /** The accumulator is fixed-threshold without catch-up: every firing
      consumes at least one interval of elapsed time, so a run fires at most
      (elapsed / interval) times, and until it fires it keeps all the time. */
  lemma {:induction false} TickAccounting(timer: real, interval: real, dts: seq<real>)
    requires 0.0 < interval && 0.0 <= timer
    requires forall k :: 0 <= k < |dts| ==> 0.0 <= dts[k]
    ensures 0.0 <= TickRun(timer, interval, dts).1
    ensures (TickRun(timer, interval, dts).0 as real) * interval + TickRun(timer, interval, dts).1
              <= timer + Sum(dts)
    ensures TickRun(timer, interval, dts).0 == 0 ==> TickRun(timer, interval, dts).1 == timer + Sum(dts)
    decreases |dts|
  {
    if dts != [] {
      var next := NextTimer(timer, interval, dts[0]);
      TickAccounting(next, interval, dts[1..]);
      var rest := TickRun(next, interval, dts[1..]);
      if Due(timer, interval, dts[0]) {
        calc {
          ((rest.0 + 1) as real) * interval + rest.1;
          (rest.0 as real) * interval + interval + rest.1;
          <= next + Sum(dts[1..]) + interval;
          <= timer + dts[0] + Sum(dts[1..]);
        }
      }
    }
  }

  /** A non-empty run of ticks fires at least once exactly when the time it
      adds to the timer reaches the interval. */
  lemma {:induction false} TickRunFiresIffReached(timer: real, interval: real, dts: seq<real>)
    requires 0.0 < interval && 0.0 <= timer && |dts| > 0
    requires forall k :: 0 <= k < |dts| ==> 0.0 <= dts[k]
    ensures TickRun(timer, interval, dts).0 > 0 <==> timer + Sum(dts) >= interval
    decreases |dts|
  {
    TickAccounting(timer, interval, dts);
    var fires := TickRun(timer, interval, dts).0;
    if fires > 0 {
      assert (fires as real) * interval >= interval;
    }
    if !Due(timer, interval, dts[0]) {
      if |dts| > 1 {
        TickRunFiresIffReached(timer + dts[0], interval, dts[1..]);
      } else {
        assert dts[1..] == [];
      }
    }
  }

  // ---------------------------------------------------------------------------
  // The tracker object
  // ---------------------------------------------------------------------------

  class HookTracker {
    /** The watched object, held weakly: resolved against the `World`. */
    const target: ObjId
    const interval: real
    var hooks: seq<HookData>
    var timer: real

    /** Records the target and interval and caches the bindings from the
        target's state at this moment. */
    constructor (target: ObjId, targetState: ObjectState, interval: real)
      ensures this.target == target && this.interval == interval
      ensures timer == 0.0
      ensures hooks == Bindings(targetState.members, targetState)
    {
      this.target := target;
      this.interval := interval;
      hooks := [];
      timer := 0.0;
      new;
      CacheHooks(targetState);
    }

    /** Adds `dt` to the timer; when it reaches the interval, resets it and
        reports the tracker due. */
    method Tick(dt: real) returns (due: bool)
      modifies this
      ensures due == Due(old(timer), interval, dt) && timer == NextTimer(old(timer), interval, dt)
      ensures due <==> old(timer) + dt >= interval
      ensures due ==> timer == 0.0
      ensures !due ==> timer == old(timer) + dt
      ensures hooks == old(hooks)
    {
      timer := timer + dt;
      if !(timer >= interval) {
        return false;
      }
      timer := 0.0;
      return true;
    }

    /** Appends one binding per marked, watchable member of the target, in
        member order. */
    method CacheHooks(targetState: ObjectState)
      modifies this
      ensures hooks == old(hooks) + Bindings(targetState.members, targetState)
      ensures timer == old(timer)
    {
      var members := targetState.members;
      for i := 0 to |members|
        invariant hooks == old(hooks) + Bindings(members[..i], targetState)
        invariant timer == old(timer)
      {
        assert members[..i + 1][..i] == members[..i];
        var decl := members[i];
        if decl.hookVar.None? {
          continue;
        }
        var member := decl.member;
        if !member.FieldInfo? && (!member.PropertyInfo? || !member.canRead) {
          continue;
        }
        var data := HookData(member, Null, None, None);
        data := data.(lastValue := data.GetCurrentValue(targetState));
        var hookMethod := decl.hookVar.value.hookMethod;
        if hookMethod.Some? && hookMethod.value != "" {
          if hookMethod.value in targetState.delegateFields {
            data := data.(callbackEvent := targetState.delegateFields[hookMethod.value]);
          } else {
            data := data.(callbackMethod := if hookMethod.value in targetState.methods then hookMethod else None);
          }
        }
        hooks := hooks + [data];
      }
      assert members[..|members|] == members;
    }

    /** Reads every watched member; for each whose value differs from the
        last one, calls its callback with `(last, current)` and records the
        current value. Returns the calls made, in order. */
    method CheckChanges(targetState: ObjectState) returns (calls: seq<Invocation>)
      modifies this
      ensures calls == Dispatches(target, old(hooks), targetState)
      ensures hooks == Refreshed(old(hooks), targetState)
      ensures |hooks| == |old(hooks)| &&
              forall k :: 0 <= k < |hooks| ==>
                hooks[k].lastValue == hooks[k].GetCurrentValue(targetState) &&
                hooks[k].member == old(hooks)[k].member &&
                hooks[k].callbackMethod == old(hooks)[k].callbackMethod &&
                hooks[k].callbackEvent == old(hooks)[k].callbackEvent
      ensures timer == old(timer)
    {
      calls := [];
      var i := 0;
      while i < |hooks|
        invariant 0 <= i <= |hooks| == |old(hooks)|
        invariant forall k :: 0 <= k < i ==>
                    hooks[k] == old(hooks)[k].(lastValue := old(hooks)[k].GetCurrentValue(targetState))
        invariant forall k :: i <= k < |hooks| ==> hooks[k] == old(hooks)[k]
        invariant calls == Dispatches(target, old(hooks)[..i], targetState)
        invariant timer == old(timer)
      {
        assert old(hooks)[..i + 1][..i] == old(hooks)[..i];
        var data := hooks[i];
        var current := data.GetCurrentValue(targetState);
        if data.lastValue != current {
          if data.callbackEvent.Some? {
            calls := calls + [Invocation(target, i, DelegateCall(data.callbackEvent.value), data.lastValue, current)];
          } else if data.callbackMethod.Some? {
            calls := calls + [Invocation(target, i, MethodCall(data.callbackMethod.value), data.lastValue, current)];
          }
          hooks := hooks[i := data.(lastValue := current)];
        }
        i := i + 1;
      }
      assert old(hooks)[..i] == old(hooks);
    }
  }
}
