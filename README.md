# hyper-react component core, modelled in Dafny

This project models two pieces of hyper-react, the Ruby (Opal) wrapper that
lets Ruby classes act as React components:

- **lib/react/component.rb** — the lifecycle adapter's decision whether a
  re-render is needed (`native_state_changed?`, `props_changed?`,
  `should_component_update?`, `call_needs_update`) and the instance state
  around it: the state write made by `update_react_js_state` and its guard
  while rendering (`@rendering_now`), `_render_wrapper`, the props-wrapper
  chain built by `component_will_mount` and `component_will_update`, and the
  de-duplicating `deprecation_warning` log.
- **lib/reactive-ruby/serializers.rb** — `react_serializer`, which turns a
  Ruby value into a JSON-ready one: scalars through `as_json`, Arrays element
  by element, Hashes value by value, each collection finished by
  ActiveSupport's `as_json`.

Files:

| file | module | contents |
|---|---|---|
| wrappers.dfy | Wrappers | `Option` |
| ruby_values.dfy | RubyValues | Ruby scalars, Arrays, insertion-ordered Hashes, Ruby truthiness |
| serializers.dfy | Serializers | Hash insertion (`h[k] = v`, `Hash[...]`), `flatten(1)`, `Hash[*list]`, `as_json`, `react_serializer`, and their lemmas |
| change_detection.dfy | ChangeDetection | native JS values and falsiness, the state and props change predicates, the update decision |
| component.dfy | ReactComponent | the state write, the props-wrapper chain, the `Component` class |
| deprecation.dfy | Deprecation | the prefixed, de-duplicated warning log |

How the pieces are represented:

- A native state snapshot is `Option<map<string, JsValue>>`; `None` stands for
  null, undefined, nil and any falsy value, and an object with no keys is
  treated as absent exactly as the native code does. The reserved key
  `"***_state_updated_at-***"` is compared only for JavaScript falsiness and
  with `!=`.
- A user-defined `needs_update?` is a function value that receives the next
  props, the next state and the two `changed?` helpers as thunks (`() -> bool`),
  and may return any Ruby value; its truthiness is the answer.
- Collaborators whose code is not part of this model appear as what crosses
  their boundary: `set_state` by the list of hashes handed to it
  (`stateWrites`); lifecycle callbacks by an `Outcome` (passed, or raised with
  an error); `process_exception` by the list of errors handed to it
  (`reported`); `RenderingContext.render` by a function supplied by the caller;
  `Time.now.to_f` by a `now` parameter.
- React's merge of a requested state into the current one (`Merged`) is the
  host's behaviour, stated so that the lemmas can connect the state write to
  the change test.
- The serializer is one recursive function over the value kinds. The scalar
  `as_json` and the key `to_s` are abstract (`Conv`); the lemmas assume only
  that `as_json` of a JSON-ready scalar is that scalar, that `String#to_s` is
  the string and that `Symbol#to_s` is the symbol's name (`Lawful`).

Behaviour of the code worth knowing, each stated by a lemma:

- `update_react_js_state` stamps the reserved key only when `object` is
  truthy (component.rb:51-58). A write through a nil `object` carries no
  timestamp, so once merged into a state that has one it is invisible to
  `native_state_changed?` (`UnstampedWriteGoesUnnoticed`).
- `should_component_update?` has no `rescue` (component.rb:93-102); the model
  claims nothing about exceptions there.
- `props_changed?` compares the next props with the host's current props,
  `@native.props` (component.rb:132-133), not with the props wrapper. The
  host moves `@native.props` and `@native.state` forward after every update,
  whatever `should_component_update?` answered; in the model that is
  `Component.HostCommit`, which changes those two fields and nothing else.
- With the built-in rule, handing the component its own state again is not
  always "no update": a present state without a truthy timestamp fails open
  and asks for an update (`BuiltInSameInputs`).
- A Hash key that is not a String is turned into one by `as_json`; two keys with
  the same string form (`:a` and `"a"`) become one key holding the value of
  the later entry (`SerializeHashLookup`), so "every key is kept" holds for
  the string forms of the keys (`SerializeHashKeys`).

## Model

| member | source | states |
|---|---|---|
| ChangeDetection.Normalized | lib/react/component.rb:118-121 | a state snapshot normalises to "absent" exactly when it is null/undefined/nil or has no keys, and is otherwise kept unchanged |
| ChangeDetection.StateChanged | lib/react/component.rb:116-129 | `native_state_changed?` reports no change exactly when both snapshots are absent, or both are present with the same truthy timestamp; so exactly one absent, or a missing/falsy timestamp on a present side, or differing timestamps all mean changed |
| ChangeDetection.PropsChanged | lib/react/component.rb:131-134 | `props_changed?` (key lists compared, then the next value of each key against the current one) reports no change exactly when current and next props are equal maps; adding, removing or changing any key makes it true |
| ChangeDetection.ShouldUpdate | lib/react/component.rb:93-102 | without `needs_update?` the host gets true exactly when the props differ or the state changed (with `needs_update?`: `CallNeedsUpdateDecides`) |
| ChangeDetection.BuiltInSameInputs | lib/react/component.rb:99 | with the built-in rule, the component's own props and state ask for an update exactly when that state is present with a missing or falsy timestamp |
| ChangeDetection.CallNeedsUpdateDecides | lib/react/component.rb:104-114 | for every user `needs_update?` that reads the helpers' answers, `call_needs_update` answers the Ruby truthiness (`!!`) of its result when `next_params.changed?` is "the props differ" and `next_state.changed?` is `native_state_changed?` |
| ChangeDetection.ChangedHelpersAgree | lib/react/component.rb:104-113 | the `changed?` helpers given to `needs_update?` agree with `props_changed?` and `native_state_changed?`: a user rule answering `next_params.changed? \|\| next_state.changed?` decides exactly as the built-in rule |
| ChangeDetection.NeedsUpdateOverridesBuiltIn | lib/react/component.rb:96-97 | when `needs_update?` is defined its Ruby truthiness alone decides: answering `0` asks for an update even for unchanged inputs |
| ReactComponent.StateWrite | lib/react/component.rb:51-59 | the hash handed to `set_state` maps the written key to the value; with an object it has exactly the timestamp key and the name (class-qualified unless the object is the component), the timestamp holding `now` unless the name is the reserved key; with a nil object it has only the name |
| ReactComponent.OtherOwnerAlwaysStamped | lib/react/component.rb:52-55 | a write for an object of another class always carries the timestamp `now`, because a class-qualified name contains a `.` and the reserved key does not |
| ReactComponent.StampedWriteIsDetected | lib/react/component.rb:53-56 | a stamped write with a truthy time the current state does not carry is reported as a state change once merged |
| ReactComponent.UnstampedWriteGoesUnnoticed | lib/react/component.rb:57-58 | a write with a nil object, merged into a state with a truthy timestamp, is reported as no state change whatever value it wrote |
| ReactComponent.OrEmpty | lib/react/component.rb:166 | `render \|\| ""` is always truthy: the render result when truthy, the empty String for nil or false |
| ReactComponent.Component.constructor | lib/react/component.rb:41-43 | a new instance is not rendering, has no props wrapper, no waiting resources, and has written and reported nothing |
| ReactComponent.Component.UpdateReactJsState | lib/react/component.rb:49-60 | while rendering nothing is written; otherwise exactly one `StateWrite` is handed to `set_state` |
| ReactComponent.Component.ComponentWillMount | lib/react/component.rb:66-74 | the first props wrapper holds the host's props and has no predecessor; a raising `before_mount` callback is reported, not raised |
| ReactComponent.Component.ShouldComponentUpdate | lib/react/component.rb:93-102 | the boolean handed to the host is the update decision `ShouldUpdate` for the host's current props and state (as last moved forward by `HostCommit`) and the next ones |
| ReactComponent.Component.ComponentWillUpdate | lib/react/component.rb:136-141 | after the `before_update` callbacks pass, the wrapper is a new one for the next props chained to the previous wrapper, so the props history grows by exactly the next props; when a callback raises the error is reported and the wrapper is unchanged |
| ReactComponent.Component.RenderWrapper | lib/react/component.rb:163-172 | the rendering flag ends cleared on every path; state writes attempted during the render are dropped; a normal render returns the context's element for `render \|\| ""` and keeps its `waiting_on_resources` when it has one; a raising render is reported and returns nothing, leaving `waiting_on_resources` as it was |
| Deprecation.PrefixedInjective | lib/react/component.rb:34 | distinct messages give distinct prefixed log lines |
| Deprecation.DeprecationLog.constructor | lib/react/component.rb:33 | the stored message list starts empty |
| Deprecation.DeprecationLog.Warn | lib/react/component.rb:32-39 | the prefixed message is stored and logged only when not already stored; afterwards it is stored and the list still has no duplicates |
| Deprecation.RecordedAllExtends | lib/react/component.rb:35-36 | over any run of warnings the stored list only grows at its end |
| Deprecation.RecordedAllNoDuplicates | lib/react/component.rb:35-36 | over any run of warnings no message is stored twice |
| Deprecation.RecordedAllMembers | lib/react/component.rb:33-38 | after any run of warnings the stored list holds exactly the earlier messages and the prefixed form of every warning given |
| Deprecation.RepeatedWarningIsIgnored | lib/react/component.rb:35-38 | warning twice with one message stores and logs it once |
| Serializers.StoreFacts | lib/reactive-ruby/serializers.rb:20 | inserting into a Ruby Hash adds exactly the stored key, keeps keys distinct, and leaves only old entries and the new one |
| Serializers.StoreNew | lib/reactive-ruby/serializers.rb:20 | inserting a key the Hash lacks appends it at the end |
| Serializers.FromPairsFacts | lib/reactive-ruby/serializers.rb:20 | `Hash[...]` has distinct keys, exactly the keys of its pairs and only entries among them; pairs with distinct keys come back unchanged and in order |
| Serializers.Flatten1PairsRoundTrip | lib/reactive-ruby/serializers.rb:20 | `flatten(1)` of the `[key, value]` pairs, read back by `Hash[*list]`, gives the pairs again: an Array-valued entry stays whole instead of being spliced into the key/value list |
| Serializers.Serialize | lib/reactive-ruby/serializers.rb:1-21 | a scalar serializes to its own `as_json`; an Array to an Array of the same length; a Hash to a Hash; defined, by structural recursion, on every finite value |
| Serializers.AsJsonFixesJson | lib/reactive-ruby/serializers.rb:16 | the closing `as_json` changes nothing on a JSON-ready value |
| Serializers.SerializeIsJson | lib/reactive-ruby/serializers.rb:1-21 | every serialization is JSON-ready: scalars are their own `as_json`, Hash keys are distinct Strings, recursively |
| Serializers.SerializeArray | lib/reactive-ruby/serializers.rb:15-17 | Array serialization keeps length and order: element i of the result is the serialization of element i |
| Serializers.SerializeHash | lib/reactive-ruby/serializers.rb:19-21 | when no two keys share a string form, entry i of the result is key i as a String mapped to the serialization of value i |
| Serializers.LookupStore | lib/reactive-ruby/serializers.rb:20 | after `h[k] = v`, `h[k]` is `v` and every other key reads as before |
| Serializers.LookupFromPairs | lib/reactive-ruby/serializers.rb:20 | in `Hash[pairs]` each key holds the value of the last pair with that key |
| Serializers.SerializeHashLookup | lib/reactive-ruby/serializers.rb:19-21 | for a Hash (distinct keys), the serialized value under each String `s` is the serialization of the value of the last entry whose key's string form is `s`, and absent when no key has that form; so `:a` and `"a"` merge into one `"a"` holding the later value |
| Serializers.SerializeHashKeys | lib/reactive-ruby/serializers.rb:19-21 | the keys of a serialized Hash are exactly the string forms of the input keys |
| Serializers.SerializeFixesJson | lib/reactive-ruby/serializers.rb:1-21 | serializing a JSON-ready value returns it unchanged |
| Serializers.SerializeIdempotent | lib/reactive-ruby/serializers.rb:1-21 | serializing twice is serializing once |

## Left out

- `component_did_mount`, `component_will_receive_props`, `component_did_update` and `component_will_unmount` (component.rb:76-91, 143-159): they only run callbacks and `State` operations whose code is not part of this model, under a `rescue` that reports the error.
- `component_will_mount` beyond the props wrapper: `IsomorphicHelpers.load_context`, the seeding of the state from `initial_state` and `State.initialize_states` are not part of this model.
- `emit`, `watch`, `define_state`, the default `render` that raises, and the `self.included` wiring (component.rb:15-30, 45-47, 62-64, 174-180): calls into JavaScript callbacks, `Observable` and `State`, or load-time wiring.
- React's own update sequence is not modelled: the caller invokes `ShouldComponentUpdate`, `ComponentWillUpdate` and `HostCommit` in the host's order.
- A `Value.Hash` may list a key twice, which a Ruby Hash cannot; `SerializeHashLookup` is stated for Hashes with distinct keys, as every Ruby Hash has.
- The state context (`State.set_state_context_to`) is not modelled; every operation acts on its own instance.
- `Time.now.to_f` is the `now` parameter; the clock's monotonicity is not modelled.
- JavaScript's loose `!=` is modelled as equality of values (no coercion between null and undefined or between numbers and strings); NaN is not modelled; `Hash.new(native)` conversions are taken as the identity.
- ChangeDetection.PropsChanged: returns a boolean, while the source returns `true`, the first differing `[key, value]` pair, or nil; only the truthiness is modelled, and the pair a `changed?` helper could expose is not.
- ChangeDetection.CallNeedsUpdate: the `changed?` helpers are pure thunks, so the `||=` memo, which only saves recomputation (and recomputes a falsy answer on each call), is not modelled.
- Exceptions raised inside `needs_update?` (which `should_component_update?` does not rescue) and inside `RenderingContext.render` are not modelled; only the user's `render` and the lifecycle callbacks can raise.
- ReactComponent.Component.RenderWrapper: after an exception the source returns whatever `process_exception` returns; the model returns `None`.
- The logging done by `IsomorphicHelpers.log` is the `logged` result of `Warn`.
- Serializers.Serialize: the scalar `as_json` and the key `to_s` are abstract; Float NaN and Infinity, `Time#xmlschema` and BigDecimal formatting are not modelled, and neither is the `rescue nil` for a missing BigDecimal class nor the Fixnum/Bignum split of old Rubies (one Integer kind).
- Values of classes without a `react_serializer` (which raise NoMethodError) and Hash default values are outside the modelled `Value` type.
