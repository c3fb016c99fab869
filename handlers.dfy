/** The `set` and `deleteProperty` traps of the handler built by `reactive`,
    as functions of the heap: the new heap, the value the trap returns, and
    whether it calls `trigger(target, key)`. */
module Handlers {
  import opened Objects
  import opened Deps

  /** What a write trap does: the heap afterwards, its return value, and
      whether it calls `trigger`. */
  datatype Write = Write(heap: Heap, result: bool, triggers: bool)

  /** The `set` trap: compare the current value with `!==`, and only when
      they differ assign through `Reflect.set` and call `trigger`. */
  function SetTrap(h: Heap, t: ObjId, k: Key, v: Value): (w: Write)
    requires t in h
    ensures Read(h, t, k) == v ==> w == Write(h, true, false)
    ensures Read(h, t, k) != v ==> w.triggers
    ensures Read(h, t, k) != v && !h[t].frozen ==>
      && w.result
      && OnlyKeyChanged(h, w.heap, t, k)
      && k in w.heap[t].props && w.heap[t].props[k] == v
    ensures Read(h, t, k) != v && h[t].frozen ==> w.heap == h && !w.result
  {
    var oldValue := Read(h, t, k);
    if oldValue != v then
      var (h', ok) := ReflectSet(h, t, k, v);
      Write(h', ok, true)
    else
      Write(h, true, false)
  }

  /** The `deleteProperty` trap as written: the own-property test runs after
      `Reflect.deleteProperty`, so it never calls `trigger`. */
  function DeleteTrap(h: Heap, t: ObjId, k: Key): (w: Write)
    requires t in h
    ensures !w.triggers
    ensures w.result <==> !(k in h[t].props && h[t].frozen)
    ensures w.result ==> OnlyKeyChanged(h, w.heap, t, k) && k !in w.heap[t].props
    ensures !w.result ==> w.heap == h
  {
    var (h', ok) := ReflectDelete(h, t, k);
    Write(h', ok, HasOwn(h', t, k) && ok)
  }

  /** The `deleteProperty` trap as its comment intends: notify when the key
      was an own property before the deletion and the deletion succeeded. */
  function DeleteTrapIntended(h: Heap, t: ObjId, k: Key): (w: Write)
    requires t in h
    ensures w.triggers <==> k in h[t].props && !h[t].frozen
    ensures w.heap == DeleteTrap(h, t, k).heap && w.result == DeleteTrap(h, t, k).result
  {
    var hadKey := HasOwn(h, t, k);
    var (h', ok) := ReflectDelete(h, t, k);
    Write(h', ok, hadKey && ok)
  }

  /** A concrete delete that should notify and does not: one subscriber of
      `a` on `{a: 1}`, and the trap as written calls no `trigger`. */
  lemma DeleteOfPresentKeyIsSilent()
    ensures var h := map[0 := Obj(map["a" := Prim(1)], false)];
      && DeleteTrap(h, 0, "a") == Write(map[0 := Obj(map[], false)], true, false)
      && DeleteTrapIntended(h, 0, "a").triggers
  {
  }

  /** Read attribution: once an effect `e` has run a callback that reads
      `(t, k)`, writing a different value to `t.k` calls `trigger` on a set
      that contains `e`. */
  lemma {:induction false} ReadAttribution(h: Heap, s: Store, e: EffectId, body: seq<Access>, t: ObjId, k: Key, v: Value)
    requires t in h && Access(t, k) in body && Read(h, t, k) != v
    ensures SetTrap(h, t, k, v).triggers
    ensures e in Subscribers(TrackAll(s, Some(e), body), t, k)
  {
    TrackAllSubscribers(s, Some(e), body, t, k);
  }

  /** Re-run exactly once per write: whatever order `trigger` invokes the
      subscribers of a pair in, an effect whose run read that pair is among
      them exactly once. */
  lemma {:induction false} ReadAttributionFiresOnce(s: Store, e: EffectId, body: seq<Access>, t: ObjId, k: Key, fired: seq<EffectId>)
    requires Access(t, k) in body
    requires Fires(fired, Subscribers(TrackAll(s, Some(e), body), t, k))
    ensures exists i :: 0 <= i < |fired| && fired[i] == e
    ensures forall i, j :: 0 <= i < |fired| && 0 <= j < |fired| && fired[i] == e && fired[j] == e ==> i == j
  {
    TrackAllSubscribers(s, Some(e), body, t, k);
    assert e in fired;
  }
}
