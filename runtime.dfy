/** The reactivity runtime: the wrapper factory `reactive`, the proxy
    handlers, `effect` with its single-slot `activeEffect` register, and
    `track`/`trigger` over `targetMap`. The module-level globals of
    `reactivity/index.js` live in one `Runtime` object, next to the heap of target
    objects the handlers read and write. */
module Reactivity {
  import opened Objects
  import opened Deps
  import opened Handlers

  /** A wrapper made by `reactive`; each call makes a new one. */
  class Proxy {
    const target: ObjId

    constructor (t: ObjId)
      ensures target == t
    {
      target := t;
    }
  }

  /** What a read hands back to its caller: a plain value, or a wrapper. */
  datatype Handle = Plain(value: Value) | Wrapper(proxy: Proxy)

  /** `reactive(target)`: a new wrapper over an object; `undefined` for
      `null` and primitives. */
  method Reactive(v: Value) returns (r: Handle)
    ensures !IsObject(v) ==> r == Plain(Undefined)
    ensures IsObject(v) ==> r.Wrapper? && fresh(r.proxy) && r.proxy.target == v.obj
  {
    if !IsObject(v) {
      return Plain(Undefined);
    }
    var p := new Proxy(v.obj);
    r := Wrapper(p);
  }

  /** `convert(value)`: objects come back as a new wrapper, every other
      value unchanged. */
  method Convert(v: Value) returns (r: Handle)
    ensures !IsObject(v) ==> r == Plain(v)
    ensures IsObject(v) ==> r.Wrapper? && fresh(r.proxy) && r.proxy.target == v.obj
  {
    if IsObject(v) {
      r := Reactive(v);
    } else {
      r := Plain(v);
    }
  }

  class Runtime {
    /** The target objects, updated in place by the handlers. */
    var heap: Heap
    /** `targetMap`. */
    var store: Store
    /** `activeEffect`; `None` stands for `null`. */
    var active: Option<EffectId>

    ghost predicate Valid()
      reads this
    {
      Closed(heap)
    }

    /** Module load: an empty `targetMap` and `activeEffect = null`, over the
        application's objects. */
    constructor (h: Heap)
      requires Closed(h)
      ensures Valid()
      ensures heap == h && store == map[] && active == None
    {
      heap := h;
      store := map[];
      active := None;
    }

    /** `track(target, key)`: add the active effect to the set of
        `(target, key)`, creating the inner map and set on first use. */
    method Track(target: ObjId, key: Key)
      modifies this`store
      ensures store == Tracked(old(store), active, target, key)
    {
      if active.None? {
        return;
      }
      var depsMap := if target in store then store[target] else map[];
      ghost var found := depsMap;
      if target !in store {
        store := store[target := depsMap];
      }
      var dep := if key in depsMap then depsMap[key] else {};
      if key !in depsMap {
        depsMap := depsMap[key := dep];
        store := store[target := depsMap];
      }
      dep := dep + {active.value};
      assert depsMap[key := dep] == found[key := dep];
      store := store[target := depsMap[key := dep]];
    }

    /** `trigger(target, key)`: invoke every effect subscribed to
        `(target, key)`, once each; `fired` is the order of invocation. The
        store is only read. */
    method Trigger(target: ObjId, key: Key) returns (fired: seq<EffectId>)
      ensures Fires(fired, Subscribers(store, target, key))
    {
      fired := [];
      if target !in store {
        return;
      }
      var depsMap := store[target];
      if key in depsMap {
        var pending := depsMap[key];
        while pending != {}
          invariant pending <= depsMap[key]
          invariant forall e :: e in depsMap[key] <==> e in pending || e in fired
          invariant forall e :: e in pending ==> e !in fired
          invariant NoDuplicates(fired)
          decreases pending
        {
          var e :| e in pending;
          fired := fired + [e];
          pending := pending - {e};
        }
      }
    }

    /** The `get` trap: track the read, then read, then convert. */
    method Get(target: ObjId, key: Key) returns (r: Handle)
      requires Valid() && target in heap
      modifies this`store
      ensures store == Tracked(old(store), active, target, key)
      ensures !IsObject(Read(heap, target, key)) ==> r == Plain(Read(heap, target, key))
      ensures IsObject(Read(heap, target, key)) ==>
        && r.Wrapper? && fresh(r.proxy)
        && r.proxy.target == Read(heap, target, key).obj && r.proxy.target in heap
    {
      Track(target, key);
      var result := Read(heap, target, key);
      r := Convert(result);
    }

    /** The `set` trap. */
    method Set(target: ObjId, key: Key, value: Value) returns (result: bool, fired: seq<EffectId>)
      requires Valid() && target in heap && ValueIn(heap, value)
      modifies this`heap
      ensures Valid()
      ensures var w := SetTrap(old(heap), target, key, value);
        && heap == w.heap && result == w.result
        && (w.triggers ==> Fires(fired, Subscribers(store, target, key)))
        && (!w.triggers ==> fired == [])
    {
      var oldValue := Read(heap, target, key);
      result := true;
      fired := [];
      if oldValue != value {
        var (h', ok) := ReflectSet(heap, target, key, value);
        heap, result := h', ok;
        fired := Trigger(target, key);
      }
    }

    /** The `deleteProperty` trap as written. */
    method DeleteProperty(target: ObjId, key: Key) returns (result: bool, fired: seq<EffectId>)
      requires Valid() && target in heap
      modifies this`heap
      ensures Valid()
      ensures var w := DeleteTrap(old(heap), target, key);
        heap == w.heap && result == w.result && fired == []
    {
      var (h', ok) := ReflectDelete(heap, target, key);
      heap, result := h', ok;
      fired := [];
      if HasOwn(heap, target, key) && result {
        fired := Trigger(target, key);
      }
    }

    /** The `deleteProperty` trap with the own-property test taken before
        the deletion, as its comment intends. */
    method DeletePropertyIntended(target: ObjId, key: Key) returns (result: bool, fired: seq<EffectId>)
      requires Valid() && target in heap
      modifies this`heap
      ensures Valid()
      ensures var w := DeleteTrapIntended(old(heap), target, key);
        && heap == w.heap && result == w.result
        && (w.triggers ==> Fires(fired, Subscribers(store, target, key)))
        && (!w.triggers ==> fired == [])
    {
      var hadKey := HasOwn(heap, target, key);
      var (h', ok) := ReflectDelete(heap, target, key);
      heap, result := h', ok;
      fired := [];
      if hadKey && result {
        fired := Trigger(target, key);
      }
    }

    /** A plain call `callback()` of a callback whose body reads `body`
        through wrappers: each read is tracked under whatever effect is
        active. `trigger` re-runs callbacks this way, without `effect`. */
    method RunCallback(body: seq<Access>)
      requires Valid()
      requires forall i :: 0 <= i < |body| ==> body[i].target in heap
      modifies this`store
      ensures store == TrackAll(old(store), active, body)
    {
      var i := 0;
      while i < |body|
        invariant 0 <= i <= |body|
        invariant store == TrackAll(old(store), active, body[..i])
      {
        var _ := Get(body[i].target, body[i].key);
        assert body[..i + 1][..i] == body[..i];
        i := i + 1;
      }
      assert body[..|body|] == body;
    }

    /** `effect(callback)`: install the effect, run the callback once, then
        clear the register. */
    method Effect(e: EffectId, body: seq<Access>)
      requires Valid()
      requires forall i :: 0 <= i < |body| ==> body[i].target in heap
      modifies this`store, this`active
      ensures active == None
      ensures store == TrackAll(old(store), Some(e), body)
    {
      active := Some(e);
      RunCallback(body);
      active := None;
    }
  }
}
