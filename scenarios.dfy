/** Clients of the runtime: what callers can conclude from the contracts of
    `Runtime` alone, for `state = reactive({a: 1, b: {c: 2}})`. */
module Scenarios {
  import opened Objects
  import opened Deps
  import opened Handlers
  import opened Reactivity

  /** Object 0 is `{a: 1, b: <object 1>}`, object 1 is `{c: 2}`. */
  function InitialHeap(): (h: Heap)
    ensures Closed(h) && 0 in h && 1 in h
  {
    map[0 := Obj(map["a" := Prim(1), "b" := Ref(1)], false),
        1 := Obj(map["c" := Prim(2)], false)]
  }

  /** `effect(() => log.push(state.a))`, then `state.a = 2` twice: the first
      write re-runs the effect once, the second (same value) re-runs
      nothing; the re-run, made without `effect`, records nothing. */
  method TopLevelWrite()
  {
    var rt := new Runtime(InitialHeap());
    var state := Reactive(Ref(0));
    assert state.Wrapper? && state.proxy.target == 0;
    var body := [Access(state.proxy.target, "a")];

    rt.Effect(7, body);
    TrackAllSubscribers(map[], Some(7), body, 0, "a");
    assert Subscribers(rt.store, 0, "a") == {7};
    assert rt.active == None;

    var ok, fired := rt.Set(0, "a", Prim(2));
    FiresSingleton(fired, 7);
    assert ok && fired == [7];
    assert Read(rt.heap, 0, "a") == Prim(2);

    ghost var before := rt.store;
    rt.RunCallback(body);
    UntrackedRunRecordsNothing(before, body);
    assert rt.store == before;

    ok, fired := rt.Set(0, "a", Prim(2));
    assert ok && fired == [];
  }

  /** Reading `state.b` twice yields two different wrappers over object 1;
      an effect reading `state.b.c` is re-run by a write through such a
      wrapper. */
  method NestedWrite()
  {
    var rt := new Runtime(InitialHeap());
    var b1 := rt.Get(0, "b");
    var b2 := rt.Get(0, "b");
    assert b1.Wrapper? && b2.Wrapper? && b1.proxy != b2.proxy;
    assert b1.proxy.target == b2.proxy.target == 1;
    assert rt.store == map[];

    var body := [Access(0, "b"), Access(1, "c")];
    rt.Effect(8, body);
    TrackAllSubscribers(map[], Some(8), body, 1, "c");
    assert Subscribers(rt.store, 1, "c") == {8};

    var ok, fired := rt.Set(b1.proxy.target, "c", Prim(5));
    FiresSingleton(fired, 8);
    assert ok && fired == [8];
  }

  /** Deleting `state.a` after an effect read it: the trap as written
      removes the key and re-runs nothing; with the own-property test taken
      before the deletion the effect is re-run once, and a second delete of
      the now absent key re-runs nothing. */
  method DeleteAfterRead()
  {
    var rt := new Runtime(InitialHeap());
    var body := [Access(0, "a")];
    rt.Effect(7, body);
    TrackAllSubscribers(map[], Some(7), body, 0, "a");
    assert Subscribers(rt.store, 0, "a") == {7};

    var ok, fired := rt.DeleteProperty(0, "a");
    assert ok && fired == [] && !HasOwn(rt.heap, 0, "a");

    var rt2 := new Runtime(InitialHeap());
    rt2.Effect(7, body);
    TrackAllSubscribers(map[], Some(7), body, 0, "a");
    ok, fired := rt2.DeletePropertyIntended(0, "a");
    FiresSingleton(fired, 7);
    assert ok && fired == [7];
    ok, fired := rt2.DeletePropertyIntended(0, "a");
    assert ok && fired == [];
  }
}
