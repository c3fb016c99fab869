/** The JavaScript values and objects the reactivity runtime works on, and the
    host operations (`typeof`, `Reflect.get`, `Reflect.set`,
    `Reflect.deleteProperty`, `hasOwnProperty`) that its handlers call. */
module Objects {

  datatype Option<+T> = None | Some(value: T)

  /** Identity of a target object (JavaScript compares objects by reference). */
  type ObjId = nat

  /** Identity of a computation registered with `effect` (a callback reference). */
  type EffectId = nat

  /** Property keys; Symbol keys are not modelled. */
  type Key = string

  /** The values a property can hold: `undefined`, `null`, a number (integers
      only) or a reference to an object. */
  datatype Value = Undefined | Null | Prim(n: int) | Ref(obj: ObjId)

  /** A plain object: its own properties, and whether it has been frozen
      (frozen objects refuse every assignment and every deletion). */
  datatype Obj = Obj(props: map<Key, Value>, frozen: bool)

  type Heap = map<ObjId, Obj>

  /** JavaScript's `typeof` restricted to the values above; note that
      `typeof null` is "object". */
  function TypeOf(v: Value): string
  {
    match v
    case Undefined => "undefined"
    case Null => "object"
    case Prim(_) => "number"
    case Ref(_) => "object"
  }

  /** `isObject`: a non-null value whose `typeof` is "object". */
  function IsObject(v: Value): (r: bool)
    ensures r <==> v.Ref?
    ensures v == Null ==> !r
  {
    v != Null && TypeOf(v) == "object"
  }

  /** A value is meaningful in `h` when any object it refers to exists there. */
  ghost predicate ValueIn(h: Heap, v: Value)
  {
    v.Ref? ==> v.obj in h
  }

  /** Every reference stored in a property points to an object of the heap. */
  ghost predicate Closed(h: Heap)
  {
    forall o, k :: o in h && k in h[o].props ==> ValueIn(h, h[o].props[k])
  }

  /** `h'` differs from `h` at most in property `k` of object `t`. */
  ghost predicate OnlyKeyChanged(h: Heap, h': Heap, t: ObjId, k: Key)
  {
    && t in h && h'.Keys == h.Keys
    && (forall o :: o in h && o != t ==> h'[o] == h[o])
    && h'[t].frozen == h[t].frozen
    && h'[t].props - {k} == h[t].props - {k}
  }

  /** `Reflect.get(target, key)` on an own property; an absent key reads as
      `undefined` (prototype chains are not modelled). */
  function Read(h: Heap, t: ObjId, k: Key): (r: Value)
    requires t in h
    ensures k in h[t].props ==> r == h[t].props[k]
    ensures k !in h[t].props ==> r == Undefined
    ensures Closed(h) ==> ValueIn(h, r)
  {
    if k in h[t].props then h[t].props[k] else Undefined
  }

  /** `Object.prototype.hasOwnProperty.call(target, key)`. */
  function HasOwn(h: Heap, t: ObjId, k: Key): (r: bool)
    requires t in h
    ensures r <==> k in h[t].props
    ensures !r ==> Read(h, t, k) == Undefined
  {
    k in h[t].props
  }

  /** `Reflect.set(target, key, value)`: assigns on an ordinary object and
      reports success; a frozen object is left as it is and `false` is
      reported. Only reached with a value different from the current one. */
  function ReflectSet(h: Heap, t: ObjId, k: Key, v: Value): (r: (Heap, bool))
    requires t in h
    ensures OnlyKeyChanged(h, r.0, t, k)
    ensures r.1 <==> !h[t].frozen
    ensures r.1 ==> k in r.0[t].props && r.0[t].props[k] == v
    ensures !r.1 ==> r.0 == h
    ensures Closed(h) && ValueIn(h, v) ==> Closed(r.0)
  {
    if h[t].frozen then (h, false)
    else (h[t := h[t].(props := h[t].props[k := v])], true)
  }

  /** `Reflect.deleteProperty(target, key)`: deleting an absent key succeeds
      and changes nothing; deleting a key of a frozen object fails;
      otherwise the key is removed. */
  function ReflectDelete(h: Heap, t: ObjId, k: Key): (r: (Heap, bool))
    requires t in h
    ensures OnlyKeyChanged(h, r.0, t, k)
    ensures r.1 <==> !(k in h[t].props && h[t].frozen)
    ensures r.1 ==> k !in r.0[t].props
    ensures !r.1 ==> r.0 == h
    ensures Closed(h) ==> Closed(r.0)
  {
    if k !in h[t].props then (h, true)
    else if h[t].frozen then (h, false)
    else (h[t := h[t].(props := h[t].props - {k})], true)
  }
}
