// The engine's records: the configuration asset and one watched-member binding.

module Structures {
  import opened Host

  /** The configuration asset: the default polling period (the editor keeps
      it in [0.01, 2]) and whether registrations are logged. */
  datatype HookConfig = HookConfig(globalTickRate: real, enableDebugLogs: bool)

  /** The asset's field initialisers, used when no asset can be loaded. */
  const DefaultConfig := HookConfig(0.01, false)

  /** `LoadConfig`: the asset found by the resource lookup, else a fresh
      instance carrying the defaults. */
  function LoadConfig(loaded: Option<HookConfig>): (c: HookConfig)
    ensures loaded.Some? ==> c == loaded.value
    ensures loaded.None? ==> c.globalTickRate == 0.01 && !c.enableDebugLogs
  {
    if loaded.Some? then loaded.value else DefaultConfig
  }

  /** One watched member of one registered object: the member, the value
      last observed, and the callback resolved at registration (a method by
      name, or the delegate a delegate-typed field held at that moment). */
  datatype HookData = HookData(
    member: MemberInfo,
    lastValue: Value,
    callbackMethod: Option<string>,
    callbackEvent: Option<DelegateId>)
  {
    /** The member's value on `target` now: a field's contents, a property
        getter's result, null for any other kind of member. Being a
        function, it assigns no field of the binding. */
    function GetCurrentValue(target: ObjectState): (v: Value)
      ensures member.FieldInfo? && member.fieldSlot in target.fieldValues ==>
                v == target.fieldValues[member.fieldSlot]
      ensures member.PropertyInfo? && member.propertySlot in target.propertyValues ==>
                v == target.propertyValues[member.propertySlot]
      ensures !member.FieldInfo? && !member.PropertyInfo? ==> v == Null
    {
      match member
      case FieldInfo(slot) => Read(target.fieldValues, slot)
      case PropertyInfo(slot, _) => Read(target.propertyValues, slot)
      case OtherMember(_) => Null
    }
  }
}
