# Reactivity runtime, modelled in Dafny

This project models the small reactivity runtime of `reactivity/index.js`.
`reactive(target)` wraps an object in a proxy. The proxy's `get` trap records
the pair `(target, key)` as a dependency of the running effect. Its `set` trap
looks up that pair and re-runs the effects that depend on it. The
`deleteProperty` trap is meant to do the same (comment at line 26), but its
`trigger` can never run. `effect(callback)` puts the callback in the single `activeEffect` slot,
runs it once, and clears the slot. `track` and `trigger` keep the dependency
store `targetMap`, which maps target to key to set of effects.

How the model is laid out:

- `Objects` (`objects.dfy`) holds the values (`undefined`, `null`, integers,
  object references) and the heap of target objects. Each object has its own
  properties and a `frozen` flag. It also holds the host operations the traps
  call: `typeof`, `Reflect.get`, `Reflect.set`, `Reflect.deleteProperty` and
  `hasOwnProperty`. `isObject` is here too.
- `Deps` (`deps.dfy`) holds the store, the function `Tracked` (the store after
  one `track`), `Subscribers` (what `trigger` looks up), `TrackAll` (the store
  after a callback's reads) and the lemmas about them.
- `Handlers` (`handlers.dfy`) gives the `set` and `deleteProperty` traps as
  functions of the heap. Each returns the new heap, the trap's return value and
  whether it calls `trigger`.
- `Reactivity` (`runtime.dfy`) holds `reactive` and `convert`, and a `Proxy`
  class, so each wrapper is a new object. The `Runtime` class holds the
  module's globals (`targetMap`, `activeEffect`) and the heap as fields. Its
  methods `Track`, `Trigger`, `Get`, `Set`, `DeleteProperty`, `RunCallback` and
  `Effect` update those fields in place. Each method is proved against the
  functions above.
- `Scenarios` (`scenarios.dfy`) holds client methods. They derive the
  behaviour of `state = reactive({a: 1, b: {c: 2}})` from the contracts alone.

Effects are identified by an `EffectId`, which stands for the callback
reference. An effect's callback is a finite list of property reads done
through wrappers. `trigger` does not run callbacks. It returns the order in
which it would invoke them, and each subscriber appears exactly once. A re-run
is a plain call of the callback (`RunCallback`), not a call through `effect`.
Its reads are therefore attributed to whatever effect is active, which outside
`effect` is none, so a re-run records nothing.

Three points of `reactivity/index.js` that the model keeps as they are:

- The `set` trap (line 16) skips the assignment altogether when the new value
  is `===` the current one, and returns `true`. So an absent key written with
  `undefined` stays absent.
- `effect` has no `try`/`finally` around the callback (lines 38-40).
- The comment at line 26 says a delete is meant to notify, but the
  `deleteProperty` trap never does (see Findings).

## Model

| member | source | states |
|---|---|---|
| Objects.IsObject | reactivity/index.js:1 | true exactly for object references: `null` is excluded although `typeof null` is "object", and `undefined` and numbers are excluded |
| Objects.ReflectSet | reactivity/index.js:17 | assigning to an ordinary object stores the value and succeeds; a frozen object is left unchanged and `false` is returned; nothing besides `target[key]` changes, and a closed heap stays closed |
| Objects.ReflectDelete | reactivity/index.js:24 | deleting removes the key and succeeds unless the key is present on a frozen object, in which case nothing changes and `false` is returned; nothing besides `target[key]` changes |
| Objects.Read | reactivity/index.js:10 | `Reflect.get` as both traps use it (lines 10 and 14): the own property's value, `undefined` for an absent key, and in a closed heap any object it refers to exists |
| Objects.HasOwn | reactivity/index.js:25 | true exactly when the key is an own property; a key that is not own reads as `undefined` |
| Deps.Subscribers | reactivity/index.js:62-65 | the two-level lookup of `trigger`: no target entry gives no effects; otherwise an effect is found exactly when it is in the set stored for `(t, k)` |
| Reactivity.Proxy.constructor | reactivity/index.js:33 | `new Proxy(target, handler)` makes a new wrapper whose target is the given object |
| Handlers.ReadAttributionFiresOnce | reactivity/index.js:61-67 | after an effect's run reads `(t, k)`, any invocation order of the subscribers of `(t, k)` contains that effect exactly once |
| Reactivity.Reactive | reactivity/index.js:4-5 | a non-object (null, undefined, a number) gives `undefined`; an object gives a newly allocated wrapper over that same object |
| Reactivity.Convert | reactivity/index.js:2 | object values come back as a newly allocated wrapper over the same object; every other value comes back unchanged |
| Reactivity.Runtime.constructor | reactivity/index.js:36-44 | the runtime starts with an empty store and no active effect |
| Deps.Tracked | reactivity/index.js:45-58 | with no active effect the store is unchanged; otherwise the entry for `(t, k)` exists and holds the old subscribers plus the active effect, every other pair keeps its subscribers, other targets' maps are untouched, and tracking an already-recorded pair changes nothing |
| Deps.TrackIdempotent | reactivity/index.js:52-57 | tracking the same pair twice gives the same store as tracking it once |
| Reactivity.Runtime.Track | reactivity/index.js:45-58 | the in-place update of `targetMap` (creating the inner map and set on first use) leaves exactly the store `Tracked` describes |
| Reactivity.Runtime.Trigger | reactivity/index.js:61-68 | every subscriber of `(target, key)` is invoked exactly once and nothing else is; no entry for the target or no set for the key means no invocation; the store is only read |
| Deps.FiresSingleton | reactivity/index.js:66 | a pair with a single subscriber invokes it exactly once |
| Reactivity.Runtime.Get | reactivity/index.js:7-12 | the read is tracked under the active effect; a primitive, `null` or `undefined` is returned unchanged; an object is returned as a new wrapper over the same object, which exists in the heap; the heap is unchanged |
| Handlers.SetTrap | reactivity/index.js:13-22 | a value `===` to the current one leaves the heap unchanged, returns `true` and does not trigger; a different value always triggers, and on an ordinary object it stores the value at `target[key]`, changes nothing else and returns `true`; on a frozen object it changes nothing and returns `false` |
| Reactivity.Runtime.Set | reactivity/index.js:13-22 | the new heap and the return value are those of `SetTrap`; the effects invoked are exactly the subscribers of `(target, key)` when it triggers and none otherwise; the heap stays closed |
| Handlers.DeleteTrap | reactivity/index.js:23-30 | as written, the trap never calls `trigger`; it returns `false` only for a present key of a frozen object, leaving the heap unchanged; on success the key is absent and nothing else changed |
| Reactivity.Runtime.DeleteProperty | reactivity/index.js:23-30 | the new heap and the return value are those of `DeleteTrap`, and no effect is invoked |
| Handlers.DeleteTrapIntended | reactivity/index.js:23-30 | with the own-property test taken before deleting, the trap triggers exactly when the key was an own property of a non-frozen object; heap and return value are as in the trap as written |
| Reactivity.Runtime.DeletePropertyIntended | reactivity/index.js:23-30 | heap and return value are those of `DeleteTrapIntended`; the subscribers of `(target, key)` are invoked once each exactly when it triggers |
| Handlers.DeleteOfPresentKeyIsSilent | reactivity/index.js:24-27 | deleting `a` from `{a: 1}` succeeds and, as written, triggers nothing, while the intended trap triggers |
| Reactivity.Runtime.RunCallback | reactivity/index.js:39 | a callback's reads leave the store as `TrackAll` under the current register, whatever effect (or none) is active |
| Reactivity.Runtime.Effect | reactivity/index.js:37-41 | after `effect`, the store has every read of the callback tracked under that effect, and `activeEffect` is `null` again |
| Deps.TrackAllSubscribers | reactivity/index.js:38-40 | a run under effect `e` adds `e` to the subscribers of exactly the pairs it read, and keeps every existing subscription |
| Deps.UntrackedRunRecordsNothing | reactivity/index.js:66 | a callback re-run by `trigger`, with no effect active, leaves the store unchanged |
| Handlers.ReadAttribution | reactivity/index.js:9-19 | after an effect's run reads `target.key`, writing a different value there calls `trigger` on a set that contains that effect |

## Left out

- Proxy mechanics of the host are not modelled: the `receiver`, prototype-chain lookup, getters and setters, Symbol keys, and array `length`. Reads see own properties only.
- `targetMap` is an ordinary map. A WeakMap's weakness cannot be observed in a sequential model.
- Reactivity.Runtime.Set: a wrapper is not a storable value. `Value` has no case for a `Proxy`, so assigning a wrapper (as in `state.b = state.b`, which stores the proxy in the raw object and triggers) and wrappers over wrappers, whose reads track both the proxy and the raw object, are not modelled.
- Values are `undefined`, `null`, integers and object references. Floating point (and `NaN !== NaN`), strings, booleans and functions are not modelled, nor is `typeof` "function".
- Reactivity.Runtime.Trigger: returns the invocation order instead of running the callbacks. So callbacks that write, and what happens when a callback changes the set while `forEach` walks it, are not modelled. The order is an arbitrary one, as set iteration order is not part of the model.
- Reactivity.Runtime.Effect: covers only callbacks whose body is a finite list of reads through wrappers. Callbacks that write, nested calls of `effect` (which would overwrite and then clear the single slot), and callbacks that throw are not modelled. A throw would leave `activeEffect` set, because there is no `try`/`finally`.
- Reactivity.Runtime.Get: does not model the `TypeError` the host throws when the trap returns a new wrapper for an object-valued property of a frozen target. Such a property is non-writable and non-configurable, and the host requires the trap to return that property's value unchanged. The model returns the wrapper instead. An `effect` whose callback makes such a read would throw and leave `activeEffect` set, so `Reactivity.Runtime.Effect`'s `active == None` covers only callbacks that complete normally.
- A trap returning `false` becomes a `TypeError` in strict-mode callers. That is host behaviour and is not modelled; the model returns `false`.
- Objects are either ordinary or frozen. Other property attributes (non-writable or non-configurable single properties, non-extensible but unfrozen objects) are not modelled.

## Findings

| source | as written | input that shows it | evidently intended | confidence | as-written member | corrected member |
|---|---|---|---|---|---|---|
| reactivity/index.js:24-27 | `hasOwnProperty` is tested after `Reflect.deleteProperty`, so the `trigger` on line 27 is dead: a successful delete has removed the key, and a failed delete fails `&& result` | `state = reactive({a: 1})`, an effect that read `state.a`, then `delete state.a`: the effect is not re-run | test the own property before deleting, and notify when it existed and the deletion succeeded, as the comment on line 26 says | high, not executed | Handlers.DeleteTrap, Handlers.DeleteOfPresentKeyIsSilent | Handlers.DeleteTrapIntended |

`Reactivity.Runtime.DeleteProperty` keeps the behaviour as written.
`Reactivity.Runtime.DeletePropertyIntended` is the corrected trap.
`Scenarios.DeleteAfterRead` derives both outcomes from their contracts.
