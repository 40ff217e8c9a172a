/**
 * The side-effect-free decisions of lib/react/component.rb: whether the
 * native state changed (`native_state_changed?`), whether the props changed
 * (`props_changed?`), and the answer to the host's "should this component
 * update?" built on them, either by the built-in rule or by a user-supplied
 * `needs_update?` (`should_component_update?`, `call_needs_update`).
 */
module ChangeDetection {
  import opened Wrappers
  import opened RubyValues

  /** A JavaScript value held in a native props or state object. Objects and
      functions are compared by reference, modelled by an identity number. */
  datatype JsValue =
    | Undefined
    | Null
    | JsBool(b: bool)
    | JsNum(n: real)
    | JsStr(s: string)
    | JsRef(id: nat)

  /** JavaScript falsiness, as used by `!x` in the native code. */
  predicate Falsy(v: JsValue) {
    v == Undefined || v == Null || v == JsBool(false) || v == JsNum(0.0) || v == JsStr("")
  }

  /** A native JavaScript object: its own enumerable keys and their values. */
  type NativeObject = map<string, JsValue>

  /** A native state snapshot; `None` stands for null, undefined, Ruby nil
      and any other falsy value. */
  type NativeState = Option<NativeObject>

  /** The reserved state key that every stamped state write sets to the time. */
  const StampKey: string := "***_state_updated_at-***"

  /** A state snapshot counts as absent when it is null/undefined/nil or has no keys. */
  predicate Absent(s: NativeState) {
    s.None? || s.value == map[]
  }

  /** The snapshot's reserved timestamp; a missing key reads as undefined. */
  function Stamp(o: NativeObject): JsValue {
    if StampKey in o then o[StampKey] else Undefined
  }

  /** The normalisation at the head of `native_state_changed?`: an absent
      snapshot becomes `None`, any other is kept as it is. */
  function Normalized(s: NativeState): (r: NativeState)
    ensures r.None? <==> Absent(s)
    ensures r.Some? ==> r == s && r.value != map[]
  {
    if Absent(s) then None else s
  }

  /** `native_state_changed?`: exactly one snapshot absent means changed, both
      absent means unchanged; otherwise a missing or falsy timestamp on either
      side means changed (fail open), and else the timestamps decide.
      The state is unchanged exactly when both snapshots are absent, or both
      are present and carry the same truthy timestamp. */
  function StateChanged(current: NativeState, next: NativeState): (r: bool)
    ensures !r <==> || (Absent(current) && Absent(next))
                    || (&& !Absent(current) && !Absent(next)
                        && !Falsy(Stamp(current.value))
                        && Stamp(current.value) == Stamp(next.value))
  {
    var c, n := Normalized(current), Normalized(next);
    if c.None? != n.None? then true
    else if c.None? then false
    else if Falsy(Stamp(c.value)) || Falsy(Stamp(n.value)) then true
    else Stamp(c.value) != Stamp(n.value)
  }

  /** `props_changed?`: the (sorted) key lists differ, or some key of the next
      props holds a value different from the current one. This shallow diff
      reports no change exactly when the two props objects are equal. */
  function PropsChanged(current: NativeObject, next: NativeObject): (r: bool)
    ensures !r <==> current == next
  {
    current.Keys != next.Keys || exists k :: k in next && next[k] != current[k]
  }

  /** How a component class answers the host: with the built-in rule, or with
      its own `needs_update?`. That one receives the next props, the next state
      and, for each, the `changed?` helper (a thunk), and may return any Ruby
      value. */
  datatype Decider =
    | BuiltIn
    | NeedsUpdate(decide: (NativeObject, NativeState, () -> bool, () -> bool) -> Value)

  /** `call_needs_update`: the truthiness (`!!`) of the user's answer, where the
      props helper runs `props_changed?` against the next props and the state
      helper runs `native_state_changed?` against the next state. */
  function CallNeedsUpdate(
    decide: (NativeObject, NativeState, () -> bool, () -> bool) -> Value,
    currentProps: NativeObject, currentState: NativeState,
    nextProps: NativeObject, nextState: NativeState): bool
  {
    var propsHelper := () => PropsChanged(currentProps, nextProps);
    var stateHelper := () => StateChanged(currentState, nextState);
    Truthy(decide(nextProps, nextState, propsHelper, stateHelper))
  }

  /** `should_component_update?`, as the boolean handed back to the host.
      Without `needs_update?` it is true exactly when the props differ or
      `native_state_changed?` holds. */
  function ShouldUpdate(
    d: Decider,
    currentProps: NativeObject, currentState: NativeState,
    nextProps: NativeObject, nextState: NativeState): (r: bool)
    ensures d.BuiltIn? ==> (r <==> currentProps != nextProps || StateChanged(currentState, nextState))
  {
    match d
    case BuiltIn => PropsChanged(currentProps, nextProps) || StateChanged(currentState, nextState)
    case NeedsUpdate(decide) => CallNeedsUpdate(decide, currentProps, currentState, nextProps, nextState)
  }

  /** A user rule that reads only the answers of the two `changed?` helpers
      (and the next props and state). */
  function HelperRule(g: (NativeObject, NativeState, bool, bool) -> Value)
    : (NativeObject, NativeState, () -> bool, () -> bool) -> Value
  {
    (np: NativeObject, ns: NativeState, propsChanged: () -> bool, stateChanged: () -> bool) =>
      g(np, ns, propsChanged(), stateChanged())
  }

  /** `call_needs_update` for every user rule: the answer is the Ruby
      truthiness of the rule's result when the props helper reports whether
      the props differ and the state helper reports `native_state_changed?`. */
  lemma CallNeedsUpdateDecides(
    g: (NativeObject, NativeState, bool, bool) -> Value,
    currentProps: NativeObject, currentState: NativeState,
    nextProps: NativeObject, nextState: NativeState)
    ensures ShouldUpdate(NeedsUpdate(HelperRule(g)), currentProps, currentState, nextProps, nextState)
        <==> Truthy(g(nextProps, nextState, currentProps != nextProps, StateChanged(currentState, nextState)))
  {
  }

  /** With the built-in rule, handing the component its own props and state
      again asks for no update, except when that state is present without a
      truthy timestamp: then the rule fails open and asks for one. */
  lemma BuiltInSameInputs(props: NativeObject, state: NativeState)
    ensures ShouldUpdate(BuiltIn, props, state, props, state)
        <==> !Absent(state) && Falsy(Stamp(state.value))
  {
  }

  /** A user rule that answers with `changed?` of the props or of the state
      decides exactly as the built-in rule does: the helpers agree with
      `props_changed?` and `native_state_changed?`. */
  lemma ChangedHelpersAgree(
    currentProps: NativeObject, currentState: NativeState,
    nextProps: NativeObject, nextState: NativeState)
    ensures ShouldUpdate(NeedsUpdate(EitherChanged), currentProps, currentState, nextProps, nextState)
         == ShouldUpdate(BuiltIn, currentProps, currentState, nextProps, nextState)
  {
  }

  /** `needs_update?` written as `next_params.changed? || next_state.changed?`. */
  function EitherChanged(nextProps: NativeObject, nextState: NativeState, propsChanged: () -> bool, stateChanged: () -> bool): Value {
    Scalar(Bool(propsChanged() || stateChanged()))
  }

  /** `needs_update?` answering `0`, which Ruby counts as true. */
  function AlwaysZero(nextProps: NativeObject, nextState: NativeState, propsChanged: () -> bool, stateChanged: () -> bool): Value {
    Scalar(Int(0))
  }

  /** A user rule replaces the built-in one: answering `0`, which is truthy in
      Ruby, asks for an update even when nothing changed. */
  lemma NeedsUpdateOverridesBuiltIn(props: NativeObject, state: NativeState)
    ensures ShouldUpdate(NeedsUpdate(AlwaysZero), props, state, props, state)
  {
  }
}
