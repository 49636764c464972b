// The operations of the RcuMap class as runs of the protocol machine: what a call does that no other
// thread interrupts, step by step, is what the class says it does.
module RcuMapSteps {
  import opened Common
  import opened RcuCore
  import opened RcuMap
  import P = RcuProtocol

  lemma Before(s: P.State, step: P.Step, rest: seq<P.Step>)
    requires P.Enabled(s, step) && P.Runs(P.Apply(s, step), rest)
    ensures P.Runs(s, [step] + rest) && P.After(s, [step] + rest) == P.After(P.Apply(s, step), rest)
  {
    assert ([step] + rest)[1..] == rest;
  }

  lemma Last(s: P.State, step: P.Step)
    requires P.Enabled(s, step)
    ensures P.Runs(s, [step]) && P.After(s, [step]) == P.Apply(s, step)
  {
    Before(s, step, []);
    assert [step] + [] == [step];
  }

  // Thread t is back from its call with this answer.
  ghost predicate Answered(s: P.State, t: P.Tid, k: Key, result: Option<Ref>) {
    && t in s.threads && s.threads[t].call.Returned?
    && s.threads[t].call.key == k && s.threads[t].call.result == result
    && (result.Some? ==> result.value in s.threads[t].held)
  }

  // The state in which a lookup has loaded the read map and looked for the key in it.
  ghost function Searched(s: P.State, t: P.Tid, k: Key): P.State
    requires P.MayStart(s, t)
  {
    var found := k in s.core.readMap;
    var seen := {Lookup(s.core, k)};
    P.SetThread(s, t, s.threads[t].(call :=
      if found then P.AtCell(k, s.core.readId, s.core.readMap[k], seen) else P.Missed(k, s.core.readId, seen)))
  }

  lemma Searches(s: P.State, t: P.Tid, k: Key, rest: seq<P.Step>)
    requires P.MayStart(s, t) && P.Runs(Searched(s, t, k), rest)
    ensures var steps := [P.LoadMap(t, k)] + ([P.Find(t)] + rest);
      P.Runs(s, steps) && P.After(s, steps) == P.After(Searched(s, t, k), rest)
  {
    var a := P.Apply(s, P.LoadMap(t, k));
    assert P.Apply(a, P.Find(t)) == Searched(s, t, k) by {
      assert P.Apply(a, P.Find(t)).threads == Searched(s, t, k).threads;
    }
    Before(a, P.Find(t), rest);
    Before(s, P.LoadMap(t, k), [P.Find(t)] + rest);
  }

  // A hit: the value is loaded from the cell, the map is not touched.
  lemma HitIsSteps(s: P.State, t: P.Tid, k: Key)
    requires Inv(s.core) && P.MayStart(s, t) && k in s.core.readMap
    ensures var steps := [P.LoadMap(t, k)] + ([P.Find(t)] + [P.LoadValue(t)]);
      && P.Runs(s, steps)
      && LookedUp(s.core, P.After(s, steps).core, k, s.clock)
      && Answered(P.After(s, steps), t, k, Lookup(s.core, k))
  {
    var b := Searched(s, t, k);
    Last(b, P.LoadValue(t));
    Searches(s, t, k, [P.LoadValue(t)]);
  }

  // Whether a lookup that misses the read map swaps.
  predicate Swaps(core: Core, k: Key) {
    k in core.dirtyMap && core.missTime + 1 >= |core.dirtyMap|
  }

  lemma LockedAnswer(s: P.State, t: P.Tid, k: Key)
    requires P.MayStart(s, t) && s.lock.Free? && k !in s.core.readMap
    ensures P.Enabled(Searched(s, t, k), P.LookUnderLock(t))
    ensures Answered(P.Apply(Searched(s, t, k), P.LookUnderLock(t)), t, k, Lookup(s.core, k))
  {
  }

  lemma LockedCore(s: P.State, t: P.Tid, k: Key)
    requires P.MayStart(s, t) && s.lock.Free? && k !in s.core.readMap
    ensures P.Enabled(Searched(s, t, k), P.LookUnderLock(t))
    ensures var c := P.Apply(Searched(s, t, k), P.LookUnderLock(t));
      && LookedUp(s.core, c.core, k, s.clock) && c.clock == s.clock
      && (if Swaps(s.core, k) then c.lock.StampingMap? else c.lock.Free?)
  {
  }

  // The stamp is the one the map has already if the clock has not moved.
  lemma StampedAlready(s: P.State, s': Core, k: Key)
    requires LookedUp(s', s.core, k, s.clock) && Swaps(s', k) && k !in s'.readMap
    ensures s.core.deletedMaps != [] && P.StampLastMap(s.core, s.clock) == s.core
  {
    var n := |s.core.deletedMaps| - 1;
    assert s.core.deletedMaps[n := s.core.deletedMaps[n].(time := s.clock)] == s.core.deletedMaps;
  }

  lemma Stamps(s: P.State, t: P.Tid, k: Key, result: Option<Ref>, was: Core)
    requires LookedUp(was, s.core, k, s.clock) && Swaps(was, k) && k !in was.readMap
    requires s.lock.StampingMap? && Answered(s, t, k, result)
    ensures P.Enabled(s, P.StampMap)
    ensures var u := P.Apply(s, P.StampMap); u.core == s.core && u.lock.Free? && Answered(u, t, k, result)
  {
    StampedAlready(s, was, k);
  }

  // A miss: the dirty map is asked under the lock, and the read map that is retired gets its stamp.
  lemma MissIsSteps(s: P.State, t: P.Tid, k: Key)
    requires P.MayStart(s, t) && s.lock.Free? && k !in s.core.readMap
    ensures var rest := [P.LookUnderLock(t)] + (if Swaps(s.core, k) then [P.StampMap] else []);
      var steps := [P.LoadMap(t, k)] + ([P.Find(t)] + rest);
      && P.Runs(s, steps) && P.After(s, steps).lock.Free?
      && LookedUp(s.core, P.After(s, steps).core, k, s.clock)
      && Answered(P.After(s, steps), t, k, Lookup(s.core, k))
  {
    var b := Searched(s, t, k);
    LockedAnswer(s, t, k);
    LockedCore(s, t, k);
    var c := P.Apply(b, P.LookUnderLock(t));
    var stamps := if Swaps(s.core, k) then [P.StampMap] else [];
    if Swaps(s.core, k) {
      Stamps(c, t, k, Lookup(s.core, k), s.core);
      Last(c, P.StampMap);
    }
    Before(b, P.LookUnderLock(t), stamps);
    Searches(s, t, k, [P.LookUnderLock(t)] + stamps);
  }

  // Update with a value.
  lemma UpdateIsSteps(s: P.State, k: Key, v: Ref)
    requires Inv(s.core) && s.lock.Free? && v !in Stored(s.core)
    ensures var steps := [P.StoreValue(k, v)] + (if k in s.core.dirtyMap then [P.StampValue] else []);
      && P.Runs(s, steps) && P.After(s, steps).lock.Free?
      && P.After(s, steps).core == Updated(s.core, k, Some(v), s.clock)
  {
    var a := P.Apply(s, P.StoreValue(k, v));
    if k in s.core.dirtyMap {
      var n := |a.core.deletedValues| - 1;
      assert a.core.deletedValues[n].time == s.clock;
      assert P.StampLastValue(a.core, s.clock).deletedValues == a.core.deletedValues;
      Last(a, P.StampValue);
      Before(s, P.StoreValue(k, v), [P.StampValue]);
    } else {
      Before(s, P.StoreValue(k, v), []);
    }
  }

  lemma DeleteIsSteps(s: P.State, k: Key)
    requires Inv(s.core) && s.lock.Free? && k in s.core.dirtyMap
    ensures var steps := [P.StampDelete(k, s.clock)] + [P.ClearCell];
      && P.Runs(s, steps) && P.After(s, steps).lock.Free?
      && P.After(s, steps).core == Updated(s.core, k, None, s.clock)
  {
    var a := P.Apply(s, P.StampDelete(k, s.clock));
    Last(a, P.ClearCell);
    Before(s, P.StampDelete(k, s.clock), [P.ClearCell]);
  }

  lemma CreateOrGetIsStep(s: P.State, t: P.Tid, k: Key, created: Option<Ref>)
    requires Inv(s.core) && P.Enabled(s, P.CreateOrGet(t, k, created))
    ensures var u := P.Apply(s, P.CreateOrGet(t, k, created));
      if Lookup(s.core, k).Some? then u.core == s.core && Answered(u, t, k, Lookup(s.core, k))
      else Answered(u, t, k, created) && u.core == if created.Some? then Updated(s.core, k, created, s.clock) else s.core
  {
  }

  // One round of each loop of CheckGc, for the bound that a MinTime result gives.
  lemma DropValueIsSteps(s: P.State, min: nat)
    requires P.Enabled(s, P.TakeValue(min))
    ensures var v := s.core.deletedValues[0].value;
      var steps := [P.TakeValue(min)] + [P.DropValue(v)];
      && P.Runs(s, steps)
      && P.After(s, steps).core == Release(PopValue(s.core), v)
  {
    var a := P.Apply(s, P.TakeValue(min));
    Last(a, P.DropValue(s.core.deletedValues[0].value));
    Before(s, P.TakeValue(min), [P.DropValue(s.core.deletedValues[0].value)]);
  }

  // A lookup that lost a race counts no miss: the read map it missed is not the present one.
  lemma MissCounted(s: P.State, t: P.Tid)
    requires P.Enabled(s, P.LookUnderLock(t)) && s.threads[t].call.key in s.core.dirtyMap
    ensures var misses := s.core.missTime + (if s.threads[t].call.id == s.core.readId then 1 else 0);
      P.Apply(s, P.LookUnderLock(t)).core.missTime == if misses < |s.core.dirtyMap| then misses else 0
  {
    LockedCoreIs(s, t);
  }

  ghost function Counted(core: Core, id: MapId, now: nat): Core {
    var counted := CountMiss(core, id);
    if counted.missTime < |counted.dirtyMap| then counted else Swap(counted, now)
  }

  lemma LockedCoreIs(s: P.State, t: P.Tid)
    requires P.Enabled(s, P.LookUnderLock(t)) && s.threads[t].call.key in s.core.dirtyMap
    ensures P.Apply(s, P.LookUnderLock(t)).core == Counted(s.core, s.threads[t].call.id, s.clock)
  {
    assert P.Apply(s, P.LookUnderLock(t)) == P.DoLookUnderLock(s, t);
  }

  // The cells that a taken map names are freed in any order, then the map.
  function Frees(id: MapId, order: seq<Key>): seq<P.Step> {
    if order == [] then [P.DropMap(id)] else [P.DropTombstone(id, order[0])] + Frees(id, order[1..])
  }

  lemma FreesOne(s: P.State, id: MapId, k: Key)
    requires Inv(s.core) && id in s.core.gcMaps && k in s.core.gcMaps[id].keys
    ensures P.Enabled(s, P.DropTombstone(id, k))
    ensures var u := P.Apply(s, P.DropTombstone(id, k)).core;
      && Inv(u) && id in u.gcMaps && u.gcMaps[id].keys == s.core.gcMaps[id].keys - {k}
      && FreeRetiredMap(u, id) == FreeRetiredMap(s.core, id)
  {
    NamedCells(s.core, id);
    FreeTombstoneKeeps(s.core, id, k);
    FreeOneFirst(s.core, id, k);
  }

  lemma FreesEmpty(s: P.State, id: MapId)
    requires id in s.core.gcMaps && s.core.gcMaps[id].keys == {}
    ensures P.Enabled(s, P.DropMap(id)) && P.Apply(s, P.DropMap(id)).core == FreeRetiredMap(s.core, id)
  {
    assert CellsOf(s.core.gcMaps[id]) == {};
    assert s.core.cells - {} == s.core.cells;
  }

  // The order names each of the keys once.
  ghost predicate Lists(order: seq<Key>, keys: set<Key>) {
    keys == (set k | k in order) && forall i, j :: 0 <= i < j < |order| ==> order[i] != order[j]
  }

  lemma ListsRest(order: seq<Key>, keys: set<Key>)
    requires Lists(order, keys) && order != []
    ensures order[0] in keys && Lists(order[1..], keys - {order[0]})
  {
    assert order == [order[0]] + order[1..];
  }

  lemma {:induction false} FreesRetired(s: P.State, id: MapId, order: seq<Key>)
    requires Inv(s.core) && id in s.core.gcMaps && Lists(order, s.core.gcMaps[id].keys)
    ensures P.Runs(s, Frees(id, order))
    ensures P.After(s, Frees(id, order)).core == FreeRetiredMap(s.core, id)
    decreases |order|
  {
    if order == [] {
      FreesEmpty(s, id);
      Last(s, P.DropMap(id));
    } else {
      ListsRest(order, s.core.gcMaps[id].keys);
      FreesOne(s, id, order[0]);
      FreesRetired(P.Apply(s, P.DropTombstone(id, order[0])), id, order[1..]);
      Before(s, P.DropTombstone(id, order[0]), Frees(id, order[1..]));
    }
  }
}
