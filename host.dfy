// What the engine sees of the host runtime: object identities, boxed values,
// the reflection view of a watched object's type, and the set of objects the
// garbage collector has not yet reclaimed.

module Host {

  datatype Option<T> = None | Some(value: T)

  /** Identity of a managed object (what reference equality compares). */
  type ObjId = nat

  /** Identity of a delegate instance captured from a delegate-typed field. */
  type DelegateId = nat

  /** A watched member's value as `object.Equals(object, object)` compares it:
      null, a boxed value type (equal when the type and the payload agree),
      a string (equal by contents) or any other reference (equal by identity). */
  datatype Value =
    | Null
    | Boxed(typeName: string, payload: int)
    | Text(chars: string)
    | Ref(id: ObjId)

  /** The reflection kinds that matter to the engine; every other kind of
      member (method, event, constructor, nested type) is `OtherMember`. */
  datatype MemberInfo =
    | FieldInfo(fieldSlot: nat)
    | PropertyInfo(propertySlot: nat, canRead: bool)
    | OtherMember(name: string)

  /** The `HookVar` marker; `hookMethod` is `None` when the attribute was
      given no argument (the C# null) and `Some("")` for an empty name. */
  datatype HookVar = HookVar(hookMethod: Option<string>)

  /** One entry of `GetMembers(Public | NonPublic | Instance)`, with the
      `HookVar` attribute it carries, if any. */
  datatype MemberDecl = MemberDecl(member: MemberInfo, hookVar: Option<HookVar>)

  /** A live managed object as the engine can observe it.
      - `members`: its type's instance members in enumeration order;
      - `fieldValues`, `propertyValues`: what each field holds and what each
        property getter returns now; a slot that is not a key reads as null;
      - `delegateFields`: the fields of delegate type, by name, with the
        delegate each holds now (`None` for a null field);
      - `methods`: the names of its instance methods;
      - `isUnityObject`, `destroyed`: whether it derives from the engine's
        object base class, and whether the engine has destroyed it. */
  datatype ObjectState = ObjectState(
    members: seq<MemberDecl>,
    fieldValues: map<nat, Value>,
    propertyValues: map<nat, Value>,
    delegateFields: map<string, Option<DelegateId>>,
    methods: set<string>,
    isUnityObject: bool,
    destroyed: bool)

  /** The objects a weak reference can still resolve: an id that is not a key
      has been reclaimed. */
  type World = map<ObjId, ObjectState>

  /** Reads slot `slot` of a value table. */
  function Read(values: map<nat, Value>, slot: nat): Value
  {
    if slot in values then values[slot] else Null
  }
}
