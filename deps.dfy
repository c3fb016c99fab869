/** The dependency store `targetMap`: target -> key -> set of effects, and the
    pure meaning of `track` and of the lookup `trigger` performs. */
module Deps {
  import opened Objects

  type Store = map<ObjId, map<Key, set<EffectId>>>

  /** One property read performed by an effect's callback. */
  datatype Access = Access(target: ObjId, key: Key)

  /** The effects `trigger(t, k)` finds: none when `t` has no entry or `k`
      has no set, otherwise the set stored for `(t, k)`. */
  function Subscribers(s: Store, t: ObjId, k: Key): (r: set<EffectId>)
    ensures t !in s ==> r == {}
    ensures forall e :: e in r <==> t in s && k in s[t] && e in s[t][k]
  {
    if t in s && k in s[t] then s[t][k] else {}
  }

  /** The store after `track(t, k)` with `active` in the tracking register. */
  function Tracked(s: Store, active: Option<EffectId>, t: ObjId, k: Key): (s': Store)
    ensures active.None? ==> s' == s
    ensures active.Some? ==> t in s' && k in s'[t]
    ensures active.Some? ==> Subscribers(s', t, k) == Subscribers(s, t, k) + {active.value}
    ensures forall t': ObjId, k': Key :: (t', k') != (t, k) ==> Subscribers(s', t', k') == Subscribers(s, t', k')
    ensures forall t' :: t' in s && t' != t ==> t' in s' && s'[t'] == s[t']
    ensures s'.Keys <= s.Keys + {t}
    ensures active.Some? && active.value in Subscribers(s, t, k) ==> s' == s
  {
    match active
    case None => s
    case Some(e) =>
      var depsMap := if t in s then s[t] else map[];
      var dep := if k in depsMap then depsMap[k] else {};
      var s' := s[t := depsMap[k := dep + {e}]];
      assert e in dep ==> s' == s by {
        if e in dep {
          assert dep + {e} == dep;
          assert depsMap[k := dep] == depsMap;
        }
      }
      s'
  }

  /** Tracking the same pair a second time leaves the store as the first
      time left it. */
  lemma TrackIdempotent(s: Store, active: Option<EffectId>, t: ObjId, k: Key)
    ensures Tracked(Tracked(s, active, t, k), active, t, k) == Tracked(s, active, t, k)
  {
  }

  /** The store after a callback performs `accesses` in order, each one tracked
      under `active`. */
  function TrackAll(s: Store, active: Option<EffectId>, accesses: seq<Access>): Store
    decreases |accesses|
  {
    if accesses == [] then s
    else
      var n := |accesses| - 1;
      Tracked(TrackAll(s, active, accesses[..n]), active, accesses[n].target, accesses[n].key)
  }

  /** A run under `Some(e)` subscribes `e` to exactly the pairs it read, and
      leaves every existing subscription in place. */
  lemma {:induction false} TrackAllSubscribers(s: Store, active: Option<EffectId>, accesses: seq<Access>, t: ObjId, k: Key)
    ensures Subscribers(TrackAll(s, active, accesses), t, k)
         == Subscribers(s, t, k) + (if active.Some? && Access(t, k) in accesses then {active.value} else {})
    decreases |accesses|
  {
    if accesses != [] {
      var n := |accesses| - 1;
      TrackAllSubscribers(s, active, accesses[..n], t, k);
      assert accesses == accesses[..n] + [accesses[n]];
      assert Access(t, k) in accesses <==> Access(t, k) in accesses[..n] || accesses[n] == Access(t, k);
    }
  }

  /** With nothing in the tracking register a callback's reads record
      nothing: this is the case of a re-run started by `trigger`. */
  lemma {:induction false} UntrackedRunRecordsNothing(s: Store, accesses: seq<Access>)
    ensures TrackAll(s, None, accesses) == s
    decreases |accesses|
  {
    if accesses != [] {
      UntrackedRunRecordsNothing(s, accesses[..|accesses| - 1]);
    }
  }

  predicate NoDuplicates(fired: seq<EffectId>)
  {
    forall i, j :: 0 <= i < j < |fired| ==> fired[i] != fired[j]
  }

  /** `fired` invokes every effect of `dep` exactly once and nothing else. */
  ghost predicate Fires(fired: seq<EffectId>, dep: set<EffectId>)
  {
    NoDuplicates(fired) && forall e :: e in fired <==> e in dep
  }

  /** Notifying a single subscriber invokes it once. */
  lemma FiresSingleton(fired: seq<EffectId>, e: EffectId)
    requires Fires(fired, {e})
    ensures fired == [e]
  {
    assert e in fired;
    forall j | 0 <= j < |fired|
      ensures fired[j] == e
    {
      assert fired[j] in fired;
    }
    if |fired| >= 2 {
      FirstTwoDiffer(fired);
      assert false;
    }
  }

  lemma FirstTwoDiffer(fired: seq<EffectId>)
    requires NoDuplicates(fired) && |fired| >= 2
    ensures fired[0] != fired[1]
  {
  }
}
