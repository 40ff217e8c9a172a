/**
 * The instance side of lib/react/component.rb: the state write made by
 * `update_react_js_state` (and its guard during rendering), the props-wrapper
 * chain built at mount and at every `component_will_update`, the render
 * wrapper that always clears the rendering flag, and the host-facing
 * `should_component_update?`.
 *
 * The collaborators whose code is not part of this model (`set_state`,
 * `State`, the callback registry, `RenderingContext`, `process_exception`)
 * appear as what crosses the boundary: the argument handed to `set_state` is
 * recorded, a callback run is an `Outcome` supplied by the caller, the
 * rendering context is a function supplied by the caller, and an exception
 * handed to `process_exception` is recorded.
 */
module ReactComponent {
  import opened Wrappers
  import opened RubyValues
  import opened ChangeDetection

  // ---------------------------------------------------------------------
  // update_react_js_state: the state write
  // ---------------------------------------------------------------------

  /** The `object` argument of `update_react_js_state` when it is not nil:
      the component itself, or an object of some other class. */
  datatype Owner = Itself | Other(className: string)

  /** The state key written: the plain name for the component itself (or a
      nil object), `"<Class>.<name>"` for an object of another class. */
  function QualifiedName(obj: Option<Owner>, name: string): string {
    match obj
    case Some(Other(cls)) => cls + "." + name
    case _ => name
  }

  /** The hash handed to `set_state`. With an object it holds the timestamp
      and the (qualified) name, later entries overriding earlier ones as in a
      Ruby hash literal; with a nil object it holds only the name. */
  function StateWrite(obj: Option<Owner>, name: string, value: JsValue, now: real): (r: NativeObject)
    ensures QualifiedName(obj, name) in r && r[QualifiedName(obj, name)] == value
    ensures obj.None? ==> r.Keys == {name}
    ensures obj.Some? ==> r.Keys == {StampKey, QualifiedName(obj, name)}
    ensures obj.Some? && QualifiedName(obj, name) != StampKey ==> r[StampKey] == JsNum(now)
  {
    if obj.Some? then map[StampKey := JsNum(now), QualifiedName(obj, name) := value]
    else map[name := value]
  }

  /** The reserved key contains no `.`, so a class-qualified name never
      overwrites the timestamp: a write for another object is always stamped. */
  lemma {:induction false} OtherOwnerAlwaysStamped(cls: string, name: string, value: JsValue, now: real)
    ensures StampKey in StateWrite(Some(Other(cls)), name, value, now)
    ensures StateWrite(Some(Other(cls)), name, value, now)[StampKey] == JsNum(now)
  {
    var q := QualifiedName(Some(Other(cls)), name);
    assert q[|cls|] == '.';
    assert '.' in q && '.' !in StampKey;
  }

  /** How the host merges a requested state into the current one (a shallow
      merge, as React's `setState` does). */
  function Merged(current: NativeState, write: NativeObject): (r: NativeObject)
    ensures r.Keys == (if current.Some? then current.value.Keys else {}) + write.Keys
    ensures forall k :: k in write ==> r[k] == write[k]
  {
    (if current.Some? then current.value else map[]) + write
  }

  /** A stamped write with a truthy time the current state does not carry is
      seen by `native_state_changed?` once the host has merged it. */
  lemma StampedWriteIsDetected(current: NativeState, obj: Owner, name: string, value: JsValue, now: real)
    requires QualifiedName(Some(obj), name) != StampKey
    requires now != 0.0
    requires Absent(current) || Stamp(current.value) != JsNum(now)
    ensures StateChanged(current, Some(Merged(current, StateWrite(Some(obj), name, value, now))))
  {
  }

  /** A write through a nil object carries no timestamp: once merged into a
      state with a truthy timestamp, `native_state_changed?` reports no change,
      whatever value was written. */
  lemma UnstampedWriteGoesUnnoticed(current: NativeObject, name: string, value: JsValue, now: real)
    requires !Falsy(Stamp(current))
    requires name != StampKey
    ensures !StateChanged(Some(current), Some(Merged(Some(current), StateWrite(None, name, value, now))))
  {
  }

  // ---------------------------------------------------------------------
  // The props wrapper chain
  // ---------------------------------------------------------------------

  /** A props wrapper: the props it was built from and the wrapper it replaced. */
  datatype PropsWrapper = PropsWrapper(props: NativeObject, previous: Option<PropsWrapper>)

  /** The props of a wrapper chain, oldest first. */
  function History(w: Option<PropsWrapper>): seq<NativeObject>
    decreases w
  {
    match w
    case None => []
    case Some(PropsWrapper(props, previous)) => History(previous) + [props]
  }

  // ---------------------------------------------------------------------
  // Rendering
  // ---------------------------------------------------------------------

  /** `render || ""`: a nil or false result of the user's render becomes the empty String. */
  function OrEmpty(rendered: Value): (r: Value)
    ensures Truthy(r)
    ensures Truthy(rendered) ==> r == rendered
    ensures !Truthy(rendered) ==> r == Scalar(Str(""))
  {
    if Truthy(rendered) then rendered else Scalar(Str(""))
  }

  /** What the rendering context returns: the rendered element and, when the
      element responds to `waiting_on_resources`, its answer. */
  datatype Element = Element(tree: Value, waitingOnResources: Option<Value>)

  /** How the user's `render` ended. */
  datatype RenderOutcome = Returned(value: Value) | Raised(error: string)

  /** How a run of lifecycle callbacks ended. */
  datatype Outcome = Pass | Raise(error: string)

  /** A call of `update_react_js_state` (an observable changed). */
  datatype UpdateCall = UpdateCall(obj: Option<Owner>, name: string, value: JsValue, now: real)

  // ---------------------------------------------------------------------
  // The component instance
  // ---------------------------------------------------------------------

  class Component {
    /** The class's answer to `respond_to?(:needs_update?)` and its `needs_update?`. */
    const decider: Decider
    /** `@native.props` and `@native.state`: owned by the host, which moves
        them forward after every update (`HostCommit`). */
    var nativeProps: NativeObject
    var nativeState: NativeState

    /** `@rendering_now` */
    var renderingNow: bool
    /** `@props_wrapper` */
    var propsWrapper: Option<PropsWrapper>
    /** `@waiting_on_resources` */
    var waitingOnResources: Value
    /** Every hash handed to `set_state`, oldest first. */
    var stateWrites: seq<NativeObject>
    /** Every exception handed to `process_exception`, oldest first. */
    var reported: seq<string>

    constructor (decider: Decider, nativeProps: NativeObject, nativeState: NativeState)
      ensures this.decider == decider && this.nativeProps == nativeProps && this.nativeState == nativeState
      ensures !renderingNow && propsWrapper.None? && waitingOnResources == Scalar(Nil)
      ensures stateWrites == [] && reported == []
    {
      this.decider := decider;
      this.nativeProps := nativeProps;
      this.nativeState := nativeState;
      renderingNow := false;
      propsWrapper := None;
      waitingOnResources := Scalar(Nil);
      stateWrites := [];
      reported := [];
    }

    /** `update_react_js_state`: does nothing while rendering; otherwise hands
        one state write to `set_state`. */
    method UpdateReactJsState(obj: Option<Owner>, name: string, value: JsValue, now: real)
      modifies this`stateWrites
      ensures renderingNow ==> stateWrites == old(stateWrites)
      ensures !renderingNow ==> stateWrites == old(stateWrites) + [StateWrite(obj, name, value, now)]
    {
      if renderingNow {
        return;
      }
      if obj.Some? {
        var key := if obj.value == Itself then name else QualifiedName(obj, name);
        stateWrites := stateWrites + [map[StampKey := JsNum(now), key := value]];
      } else {
        stateWrites := stateWrites + [map[name := value]];
      }
    }

    /** The props part of `component_will_mount`: the first wrapper, with no
        predecessor, then the `before_mount` callbacks; an exception is
        reported, not raised. */
    method ComponentWillMount(callbacks: Outcome)
      modifies this`propsWrapper, this`reported
      ensures propsWrapper == Some(PropsWrapper(nativeProps, None))
      ensures History(propsWrapper) == [nativeProps]
      ensures reported == old(reported) + (if callbacks.Raise? then [callbacks.error] else [])
    {
      propsWrapper := Some(PropsWrapper(nativeProps, None));
      if callbacks.Raise? {
        reported := reported + [callbacks.error];
      }
    }

    /** `should_component_update?`: the host-native boolean. */
    method ShouldComponentUpdate(nextProps: NativeObject, nextState: NativeState) returns (r: bool)
      ensures r == ShouldUpdate(decider, nativeProps, nativeState, nextProps, nextState)
    {
      r := ShouldUpdate(decider, nativeProps, nativeState, nextProps, nextState);
    }

    /** The host's side of an update: after `should_component_update?` (and
        `component_will_update`, when it asked for one) React makes the next
        props and state current, whatever the answer was. Nothing of the
        component's own changes. */
    method HostCommit(nextProps: NativeObject, nextState: NativeState)
      modifies this`nativeProps, this`nativeState
      ensures nativeProps == nextProps && nativeState == nextState
    {
      nativeProps := nextProps;
      nativeState := nextState;
    }

    /** `component_will_update`: the `before_update` callbacks (which see the
        next props and state), then a new wrapper for the next props chained to
        the current one. When a callback raises, the exception is reported and
        the wrapper is left as it was. */
    method ComponentWillUpdate(nextProps: NativeObject, nextState: NativeState, callbacks: Outcome)
      modifies this`propsWrapper, this`reported
      ensures callbacks.Pass? ==> propsWrapper == Some(PropsWrapper(nextProps, old(propsWrapper)))
      ensures callbacks.Pass? ==> reported == old(reported)
      ensures callbacks.Raise? ==> propsWrapper == old(propsWrapper) && reported == old(reported) + [callbacks.error]
      ensures History(propsWrapper) == History(old(propsWrapper)) + (if callbacks.Pass? then [nextProps] else [])
    {
      if callbacks.Raise? {
        reported := reported + [callbacks.error];
        return;
      }
      propsWrapper := Some(PropsWrapper(nextProps, propsWrapper));
    }

    /** `_render_wrapper`: sets the rendering flag, runs the user's render
        (during which `updates` reach `update_react_js_state` and are dropped),
        hands `render || ""` to the rendering context and keeps the element's
        `waiting_on_resources` when it has one. An exception is reported and
        nothing is returned. On every path the flag ends cleared. */
    method RenderWrapper(updates: seq<UpdateCall>, rendered: RenderOutcome, context: Value -> Element)
      returns (r: Option<Element>)
      modifies this`renderingNow, this`stateWrites, this`waitingOnResources, this`reported
      ensures !renderingNow
      ensures stateWrites == old(stateWrites)
      ensures rendered.Returned? ==>
        && r == Some(context(OrEmpty(rendered.value)))
        && reported == old(reported)
        && waitingOnResources == r.value.waitingOnResources.GetOr(old(waitingOnResources))
      ensures rendered.Raised? ==>
        && r.None?
        && reported == old(reported) + [rendered.error]
        && waitingOnResources == old(waitingOnResources)
    {
      renderingNow := true;
      var i := 0;
      while i < |updates|
        invariant 0 <= i <= |updates|
        invariant renderingNow && stateWrites == old(stateWrites)
        invariant waitingOnResources == old(waitingOnResources) && reported == old(reported)
      {
        var u := updates[i];
        UpdateReactJsState(u.obj, u.name, u.value, u.now);
        i := i + 1;
      }
      match rendered {
        case Returned(value) =>
          var element := context(if Truthy(value) then value else Scalar(Str("")));
          if element.waitingOnResources.Some? {
            waitingOnResources := element.waitingOnResources.value;
          }
          r := Some(element);
        case Raised(error) =>
          reported := reported + [error];
          r := None;
      }
      renderingNow := false;
    }
  }
}
