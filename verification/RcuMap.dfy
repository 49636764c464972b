// The RcuMap class of polaris/cache/rcu_map.h.  Each method is one call as it runs when no other
// thread interferes; `now` is the clock value the call reads.  `model` is the value the protocol
// machine works on: every method moves it by the sections proved there, and Valid() says that the
// fields are what it says.
module RcuMap {
  import opened Common
  import opened RcuCore

  // Update with a null value deletes; otherwise it replaces or inserts.
  ghost function Updated(s: Core, k: Key, value: Option<Ref>, now: nat): Core
    requires Inv(s)
  {
    if value.None? then
      if k in s.dirtyMap then Remove(s, k, now) else s
    else if k in s.dirtyMap then Replace(s, k, value.value, now)
    else Insert(s, k, value.value)
  }

  // What is listed when the key gets another value or none: the one it had, with the present time.
  ghost function Retires(s: Core, k: Key, now: nat): seq<RetiredValue> {
    if Lookup(s, k).Some? then [RetiredValue(Lookup(s, k).value, now)] else []
  }

  // What a lookup does to the map: nothing, unless the key is found in the dirty map only.  Then the miss
  // is counted; when the misses reach the size, the dirty map becomes the read map, and the old one is
  // listed with the tombstones it has and the present time.
  ghost predicate LookedUp(s: Core, t: Core, k: Key, now: nat) {
    if k in s.readMap || k !in s.dirtyMap then t == s
    else if s.missTime + 1 < |s.dirtyMap| then t == s.(missTime := s.missTime + 1)
    else
      && t.readMap == t.dirtyMap == s.dirtyMap && t.readId == s.readId + 1
      && t.missTime == 0 && t.deletedKeys == {}
      && t.deletedMaps == s.deletedMaps + [RetiredMap(s.readId, s.readMap, s.deletedKeys, now)]
      && t.cells == s.cells && t.deletedValues == s.deletedValues && t.released == s.released
  }

  lemma UpdatedKeeps(s: Core, k: Key, value: Option<Ref>, now: nat)
    requires Inv(s) && (value.Some? ==> value.value !in Stored(s))
    ensures var t := Updated(s, k, value, now);
      && Inv(t)
      && (forall j :: Lookup(t, j) == if j == k then value else Lookup(s, j))
      && Stored(t) == Stored(s) + (if value.Some? then {value.value} else {})
  {
    if value.None? {
      if k in s.dirtyMap { RemoveKeeps(s, k, now); }
    } else if k in s.dirtyMap {
      ReplaceKeeps(s, k, value.value, now);
    } else {
      InsertKeeps(s, k, value.value);
    }
  }

  // A map taken off the list is freed together with every cell it names.
  ghost function FreeRetiredMap(s: Core, id: MapId): Core
    requires id in s.gcMaps
  {
    s.(cells := s.cells - CellsOf(s.gcMaps[id]), gcMaps := s.gcMaps - {id})
  }

  lemma NamedCells(s: Core, id: MapId)
    requires Inv(s) && id in s.gcMaps
    ensures var d := s.gcMaps[id];
      && d.keys <= d.inner.Keys && CellsOf(d) <= s.cells.Keys
      && (forall j, k :: j in d.keys && k in d.keys && d.inner[j] == d.inner[k] ==> j == k)
  {
    assert NamesItsTombstones(s, s.gcMaps[id]);
  }

  // Freeing one of the cells first makes no difference.
  lemma FreeOneFirst(s: Core, id: MapId, k: Key)
    requires id in s.gcMaps && k in s.gcMaps[id].keys && s.gcMaps[id].keys <= s.gcMaps[id].inner.Keys
    requires forall j :: j in s.gcMaps[id].keys && s.gcMaps[id].inner[j] == s.gcMaps[id].inner[k] ==> j == k
    ensures id in FreeTombstone(s, id, k).gcMaps
    ensures FreeRetiredMap(FreeTombstone(s, id, k), id) == FreeRetiredMap(s, id)
  {
    var d, t := s.gcMaps[id], FreeTombstone(s, id, k);
    assert CellsOf(d) == CellsOf(t.gcMaps[id]) + {d.inner[k]};
    assert t.cells - CellsOf(t.gcMaps[id]) == s.cells - CellsOf(d);
    assert t.gcMaps - {id} == s.gcMaps - {id};
  }

  lemma {:induction false} FreeRetiredMapKeeps(s: Core, id: MapId)
    requires Inv(s) && id in s.gcMaps
    ensures var t := FreeRetiredMap(s, id);
      Inv(t) && Stored(t) == Stored(s) && (forall j :: Lookup(t, j) == Lookup(s, j))
    decreases |s.gcMaps[id].keys|
  {
    NamedCells(s, id);
    var d := s.gcMaps[id];
    if d.keys == {} {
      FreeMapKeeps(s, id);
      assert s.cells - CellsOf(d) == s.cells;
    } else {
      var k :| k in d.keys;
      FreeTombstoneKeeps(s, id, k);
      FreeOneFirst(s, id, k);
      FreeRetiredMapKeeps(FreeTombstone(s, id, k), id);
    }
  }

  // Distinct keys of the dirty map have distinct cells and distinct references.
  lemma DirtyIsInjective(s: Core)
    requires Inv(s)
    ensures forall j, k :: j in s.dirtyMap && k in s.dirtyMap && s.dirtyMap[j] == s.dirtyMap[k] ==> j == k
    ensures forall k :: k in s.dirtyMap ==> Lookup(s, k).Some? && Lookup(s, k).value in s.linkedAs
    ensures forall j, k :: j in s.dirtyMap && k in s.dirtyMap && Lookup(s, j) == Lookup(s, k) ==> j == k
    ensures s.linkedAs.Keys == set k | k in s.dirtyMap :: Lookup(s, k).value
  {
    forall v | v in s.linkedAs ensures s.linkedAs[v] in s.dirtyMap && Lookup(s, s.linkedAs[v]) == Some(v) {
      assert Reachable(s, v);
    }
  }

  // What the loops of the destructor rely on: no cell and no reference is met twice.
  ghost predicate DestructorMayRun(s: Core) {
    && s.dirtyMap.Values <= s.cells.Keys && s.gcValues == {} && s.gcMaps == map[]
    && (forall k :: k in s.dirtyMap ==> s.cells[s.dirtyMap[k]].Some? && s.cells[s.dirtyMap[k]].value !in s.released)
    && (forall j, k :: j in s.dirtyMap && k in s.dirtyMap && j != k ==>
          s.dirtyMap[j] != s.dirtyMap[k] && s.cells[s.dirtyMap[j]] != s.cells[s.dirtyMap[k]])
    && s.linkedAs.Keys == (set k | k in s.dirtyMap :: s.cells[s.dirtyMap[k]].value)
    && ReadInv(s) && MapListInv(s) && ListedOnce(s)
    && TombstoneCells(s) <= s.cells.Keys && TombstoneCells(s) !! DirtyCells(s)
    && (forall i :: 0 <= i < |s.deletedMaps| ==>
          CellsOf(s.deletedMaps[i]) <= s.cells.Keys - TombstoneCells(s) - DirtyCells(s))
    && (forall i, j :: 0 <= i < j < |s.deletedMaps| ==> CellsOf(s.deletedMaps[i]) !! CellsOf(s.deletedMaps[j]))
  }

  lemma DestructorRuns(s: Core)
    requires Inv(s) && s.gcValues == {} && s.gcMaps == map[]
    ensures DestructorMayRun(s)
  {
    CellOwnership(s);
    DirtyIsInjective(s);
    assert forall k :: k in s.dirtyMap ==> Lookup(s, k) == s.cells[s.dirtyMap[k]];
    forall i | 0 <= i < |s.deletedMaps|
      ensures CellsOf(s.deletedMaps[i]) <= s.cells.Keys - TombstoneCells(s) - DirtyCells(s)
    {
      assert CellsOf(s.deletedMaps[i]) <= RetiredCells(s);
    }
  }

  // After the oldest n listed values were released, resp. the oldest n retired maps freed.
  ghost predicate ValuesGone(was: Core, s: Core, n: nat) {
    && n <= |was.deletedValues| && s.deletedValues == was.deletedValues[n..]
    && s.released == was.released + (set i | 0 <= i < n :: was.deletedValues[i].value)
    && s.cells == was.cells && s.deletedMaps == was.deletedMaps
    && Stored(s) == Stored(was)
  }

  lemma OneValueGone(was: Core, s: Core, t: Core, n: nat)
    requires ValuesGone(was, s, n) && s.deletedValues != []
    requires t.deletedValues == s.deletedValues[1..] && t.released == s.released + {s.deletedValues[0].value}
    requires t.cells == s.cells && t.deletedMaps == s.deletedMaps && Stored(t) == Stored(s)
    ensures ValuesGone(was, t, n + 1) && s.deletedValues[0] == was.deletedValues[n]
  {
  }

  ghost predicate MapsGone(was: Core, s: Core, n: nat) {
    && n <= |was.deletedMaps| && s.deletedMaps == was.deletedMaps[n..]
    && s.cells == was.cells - (set i, c | 0 <= i < n && c in CellsOf(was.deletedMaps[i]) :: c)
    && s.released == was.released && s.deletedValues == was.deletedValues
    && Stored(s) == Stored(was)
  }

  lemma OneMapGone(was: Core, s: Core, t: Core, n: nat)
    requires MapsGone(was, s, n) && s.deletedMaps != []
    requires t.deletedMaps == s.deletedMaps[1..] && t.cells == s.cells - CellsOf(s.deletedMaps[0])
    requires t.released == s.released && t.deletedValues == s.deletedValues && Stored(t) == Stored(s)
    ensures MapsGone(was, t, n + 1) && s.deletedMaps[0] == was.deletedMaps[n]
  {
  }

  // When each key of the map was last used: the time of its cell.
  ghost function UsesOf(dirtyMap: InnerMap, times: seq<nat>): map<Key, nat> {
    map k | k in dirtyMap && dirtyMap[k] < |times| :: times[dirtyMap[k]]
  }

  lemma UsesTouched(s: Core, times: seq<nat>, c: CellId, now: nat)
    requires DirtyInv(s) && c < |s.owner| == |times|
    ensures UsesOf(s.dirtyMap, times[c := now]) ==
      var k := s.owner[c];
      if k in s.dirtyMap && s.dirtyMap[k] == c then UsesOf(s.dirtyMap, times)[k := now] else UsesOf(s.dirtyMap, times)
  {
  }

  lemma UsesRemoved(s: Core, times: seq<nat>, key: Key, now: nat)
    requires DirtyInv(s) && |s.owner| == |times| && key in s.dirtyMap
    ensures s.dirtyMap[key] < |times|
    ensures UsesOf(s.dirtyMap - {key}, times[s.dirtyMap[key] := now]) == UsesOf(s.dirtyMap, times) - {key}
  {
  }

  lemma UsesRevived(s: Core, times: seq<nat>, key: Key, now: nat)
    requires DirtyInv(s) && ReadInv(s) && |s.owner| == |times| && key !in s.dirtyMap && key in s.readMap
    ensures s.readMap[key] < |times|
    ensures UsesOf(s.dirtyMap[key := s.readMap[key]], times[s.readMap[key] := now]) == UsesOf(s.dirtyMap, times)[key := now]
  {
  }

  lemma UsesAdded(s: Core, times: seq<nat>, key: Key, now: nat)
    requires DirtyInv(s) && |s.owner| == |times| && key !in s.dirtyMap
    ensures UsesOf(s.dirtyMap[key := |times|], times + [now]) == UsesOf(s.dirtyMap, times)[key := now]
  {
  }

  class RcuMap {
    var cells: map<CellId, Option<Ref>>
    var nextCell: CellId
    var usedTime: seq<nat>    // used_time_ of every cell made, by number
    var readId: MapId
    var readMap: InnerMap
    var dirtyMap: InnerMap
    var deletedKeys: set<Key>
    var missTime: nat
    var deletedValues: seq<RetiredValue>
    var deletedMaps: seq<RetiredMap>
    var released: set<Ref>
    var taken: seq<Ref>    // the references taken for callers, by allocator_
    ghost var model: Core

    ghost predicate Matches()
      reads this
    {
      && cells == model.cells && nextCell == |model.owner| == |usedTime|
      && readId == model.readId && readMap == model.readMap && dirtyMap == model.dirtyMap
      && deletedKeys == model.deletedKeys && missTime == model.missTime
      && deletedValues == model.deletedValues && deletedMaps == model.deletedMaps
      && released == model.released
    }

    ghost predicate Valid()
      reads this
    {
      Matches() && Inv(model) && model.gcValues == {} && model.gcMaps == map[]
    }

    ghost function Uses(): map<Key, nat>
      reads this
    {
      UsesOf(dirtyMap, usedTime)
    }

    constructor ()
      ensures Valid() && model == Empty() && taken == []
    {
      cells, nextCell, usedTime := map[], 0, [];
      readId, readMap, dirtyMap, deletedKeys, missTime := 0, map[], map[], {}, 0;
      deletedValues, deletedMaps, released, taken := [], [], {}, [];
      model := Empty();
    }

    // deallocator_(value): each reference is dropped at most once.
    method Deallocate(v: Ref)
      requires v !in released
      modifies this`released
      ensures released == old(released) + {v}
    {
      released := released + {v};
    }

    // delete cell: the cell must be allocated.
    method FreeCell(c: CellId)
      requires c in cells
      modifies this`cells
      ensures cells == old(cells) - {c}
    {
      cells := cells - {c};
    }

    method SwapMaps(now: nat)
      requires Matches()
      modifies this`deletedMaps, this`readId, this`readMap, this`deletedKeys, this`missTime, this`model
      ensures Matches() && model == Swap(old(model), now)
    {
      deletedMaps := deletedMaps + [RetiredMap(readId, readMap, deletedKeys, now)];
      readId := readId + 1;
      readMap := dirtyMap;
      deletedKeys := {};
      missTime := 0;
      model := Swap(model, now);
    }

    // The dirty map becomes the read map once the misses have paid for the copy.
    method CheckSwap(now: nat)
      requires Valid()
      modifies this`deletedMaps, this`readId, this`readMap, this`deletedKeys, this`missTime, this`model
      ensures Valid()
      ensures model == if old(missTime) < |old(dirtyMap)| then old(model) else Swap(old(model), now)
      ensures forall j :: Lookup(model, j) == old(Lookup(model, j))
      ensures old(missTime) >= |dirtyMap| ==>
        && readMap == dirtyMap && readId == old(readId) + 1 && deletedKeys == {} && missTime == 0
        && deletedMaps == old(deletedMaps) + [RetiredMap(old(readId), old(readMap), old(deletedKeys), now)]
    {
      if missTime < |dirtyMap| {
        return;
      }
      SwapKeeps(model, now);
      SwapMaps(now);
    }

    // it->second->used_time_ = now: the use of the key whose cell it is.
    method Touch(c: CellId, now: nat)
      requires Valid() && c < nextCell
      modifies this`usedTime
      ensures Valid() && |usedTime| == |old(usedTime)|
      ensures var k := model.owner[c];
        Uses() == if k in dirtyMap && dirtyMap[k] == c then old(Uses())[k := now] else old(Uses())
    {
      UsesTouched(model, usedTime, c, now);
      usedTime := usedTime[c := now];
    }

    method CountMisses(now: nat)
      requires Valid()
      modifies this`deletedMaps, this`readId, this`readMap, this`deletedKeys, this`missTime, this`model
      ensures Valid() && forall j :: Lookup(model, j) == old(Lookup(model, j))
      ensures model ==
        var counted := old(model).(missTime := old(missTime) + 1);
        if counted.missTime < |dirtyMap| then counted else Swap(counted, now)
    {
      missTime := missTime + 1;
      MemoryStays(model, CountMiss(model, readId));
      LinksStay(model, CountMiss(model, readId));
      model := CountMiss(model, readId);
      CheckSwap(now);
    }

    // The key is not in the read map: look in the dirty map under the lock.
    method FindDirty(key: Key, now: nat, update: bool) returns (result: Option<Ref>)
      requires Valid() && key !in readMap
      modifies this`deletedMaps, this`readId, this`readMap, this`deletedKeys, this`missTime, this`model, this`usedTime
      ensures Valid()
      ensures result == old(Lookup(model, key))
      ensures forall j :: Lookup(model, j) == old(Lookup(model, j))
      ensures LookedUp(old(model), model, key, now)
      ensures Uses() == if update && result.Some? then old(Uses())[key := now] else old(Uses())
    {
      result := None;
      if key in dirtyMap {
        if update {
          Touch(dirtyMap[key], now);
        }
        result := cells[dirtyMap[key]];
        CountMisses(now);
      }
    }

    method Find(key: Key, now: nat, update: bool) returns (result: Option<Ref>)
      requires Valid()
      modifies this`deletedMaps, this`readId, this`readMap, this`deletedKeys, this`missTime, this`model, this`usedTime
      ensures Valid()
      ensures result == old(Lookup(model, key))
      ensures forall j :: Lookup(model, j) == old(Lookup(model, j))
      ensures LookedUp(old(model), model, key, now)
      ensures Uses() == if update && result.Some? then old(Uses())[key := now] else old(Uses())
    {
      if key !in readMap {
        result := FindDirty(key, now, update);
        return;
      }
      if update {
        Touch(readMap[key], now);
      }
      result := cells[readMap[key]];
    }

    method GetWithRcuTime(key: Key, now: nat) returns (result: Option<Ref>)
      requires Valid()
      modifies this`deletedMaps, this`readId, this`readMap, this`deletedKeys, this`missTime, this`model, this`usedTime
      ensures Valid()
      ensures result == old(Lookup(model, key))
      ensures forall j :: Lookup(model, j) == old(Lookup(model, j))
      ensures LookedUp(old(model), model, key, now)
      ensures Uses() == if result.Some? then old(Uses())[key := now] else old(Uses())
    {
      result := Find(key, now, true);
    }

    // Get also takes a reference for the caller, to a value that the map has not released, and may leave
    // the time of the last use alone.
    method Get(key: Key, now: nat, update: bool) returns (result: Option<Ref>)
      requires Valid()
      modifies this
      ensures Valid()
      ensures result == old(Lookup(model, key))
      ensures forall j :: Lookup(model, j) == old(Lookup(model, j))
      ensures LookedUp(old(model), model, key, now)
      ensures Uses() == if update && result.Some? then old(Uses())[key := now] else old(Uses())
      ensures taken == old(taken) + if result.Some? then [result.value] else []
      ensures result.Some? ==> result.value !in released
    {
      result := Find(key, now, update);
      if result.Some? {
        taken := taken + [result.value];
      }
    }

    method Unlink(key: Key, now: nat)
      requires Matches() && key in dirtyMap && dirtyMap[key] < nextCell
      requires dirtyMap[key] in cells && cells[dirtyMap[key]].Some?
      modifies this`cells, this`dirtyMap, this`deletedKeys, this`deletedValues, this`usedTime, this`model
      ensures Matches() && model == Remove(old(model), key, now)
      ensures usedTime == old(usedTime[dirtyMap[key] := now])
    {
      var c := dirtyMap[key];
      usedTime := usedTime[c := now];
      deletedValues := deletedValues + [RetiredValue(cells[c].value, now)];
      dirtyMap := dirtyMap - {key};
      if key in readMap {
        cells := cells[c := None];
        deletedKeys := deletedKeys + {key};
      } else {
        FreeCell(c);
      }
      model := Remove(model, key, now);
    }

    method Delete(key: Key, now: nat)
      requires Valid()
      modifies this`cells, this`dirtyMap, this`deletedKeys, this`deletedValues, this`usedTime, this`model
      ensures Valid()
      ensures model == Updated(old(model), key, None, now)
      ensures forall j :: Lookup(model, j) == if j == key then None else old(Lookup(model, j))
      ensures deletedValues == old(deletedValues) + old(Retires(model, key, now))
      ensures Uses() == old(Uses()) - {key}
    {
      if key in dirtyMap {
        UsesRemoved(model, usedTime, key, now);
        RemoveKeeps(model, key, now);
        Unlink(key, now);
      }
    }

    method Link(key: Key, value: Ref, now: nat)
      requires Matches()
      requires key in readMap ==> readMap[key] in cells && cells[readMap[key]] == None && key in deletedKeys
      requires key in readMap ==> readMap[key] < nextCell
      modifies this`cells, this`nextCell, this`dirtyMap, this`deletedKeys, this`usedTime, this`model
      ensures Matches() && model == Insert(old(model), key, value)
      ensures usedTime == old(if key in readMap then usedTime[readMap[key] := now] else usedTime + [now])
    {
      if key in readMap {
        usedTime := usedTime[readMap[key] := now];
        cells := cells[readMap[key] := Some(value)];
        deletedKeys := deletedKeys - {key};
        dirtyMap := dirtyMap[key := readMap[key]];
      } else {
        usedTime := usedTime + [now];
        cells := cells[nextCell := Some(value)];
        dirtyMap := dirtyMap[key := nextCell];
        nextCell := nextCell + 1;
      }
      model := Insert(model, key, value);
    }

    // The tail shared by Update and CreateOrGet: the key is not in the dirty map.
    method InsertNew(key: Key, value: Ref, now: nat)
      requires Valid() && key !in dirtyMap && value !in Stored(model)
      modifies this`cells, this`nextCell, this`dirtyMap, this`deletedKeys, this`usedTime, this`model
      ensures Valid()
      ensures model == Insert(old(model), key, value)
      ensures forall j :: Lookup(model, j) == if j == key then Some(value) else old(Lookup(model, j))
      ensures Stored(model) == old(Stored(model)) + {value}
      ensures Uses() == old(Uses())[key := now]
    {
      if key in readMap {
        UsesRevived(model, usedTime, key, now);
      } else {
        UsesAdded(model, usedTime, key, now);
      }
      InsertKeeps(model, key, value);
      Link(key, value, now);
    }

    method Overwrite(key: Key, value: Ref, now: nat)
      requires Matches() && key in dirtyMap && dirtyMap[key] in cells && cells[dirtyMap[key]].Some?
      modifies this`cells, this`deletedValues, this`model
      ensures Matches() && model == Replace(old(model), key, value, now)
    {
      var c := dirtyMap[key];
      deletedValues := deletedValues + [RetiredValue(cells[c].value, now)];
      cells := cells[c := Some(value)];
      model := Replace(model, key, value, now);
    }

    // Update with a value, down to what it does to the cells and lists.
    method Put(key: Key, value: Ref, now: nat)
      requires Valid() && value !in Stored(model)
      modifies this`cells, this`nextCell, this`dirtyMap, this`deletedKeys, this`deletedValues, this`usedTime, this`model
      ensures Valid() && model == Updated(old(model), key, Some(value), now)
      ensures Uses() == if key in old(dirtyMap) then old(Uses()) else old(Uses())[key := now]
    {
      if key in dirtyMap {
        ReplaceKeeps(model, key, value, now);
        Overwrite(key, value, now);
      } else {
        InsertNew(key, value, now);
      }
    }

    method Update(key: Key, value: Option<Ref>, now: nat)
      requires Valid() && (value.Some? ==> value.value !in Stored(model))
      modifies this`cells, this`nextCell, this`dirtyMap, this`deletedKeys, this`deletedValues, this`usedTime, this`model
      ensures Valid()
      ensures model == Updated(old(model), key, value, now)
      ensures forall j :: Lookup(model, j) == if j == key then value else old(Lookup(model, j))
      ensures Stored(model) == old(Stored(model)) + (if value.Some? then {value.value} else {})
      ensures deletedValues == old(deletedValues) + old(Retires(model, key, now))
      ensures Uses() ==
        if value.None? then old(Uses()) - {key}
        else if key in old(dirtyMap) then old(Uses()) else old(Uses())[key := now]
    {
      UpdatedKeeps(model, key, value, now);
      if value.None? {
        Delete(key, now);
      } else {
        Put(key, value.value, now);
      }
    }

    // `created` is what the creator would return; it is called only if the key is absent.
    method CreateOrGet(key: Key, created: Option<Ref>, now: nat) returns (result: Option<Ref>)
      requires Valid() && (created.Some? ==> created.value !in Stored(model))
      modifies this
      ensures Valid()
      ensures result == if old(Lookup(model, key)).Some? then old(Lookup(model, key)) else created
      ensures forall j :: Lookup(model, j) == if j == key then result else old(Lookup(model, j))
      ensures old(Lookup(model, key)).Some? ==> model == old(model)
      ensures deletedValues == old(deletedValues) && deletedMaps == old(deletedMaps)
      ensures readMap == old(readMap) && missTime == old(missTime)
      ensures Uses() == if result.Some? then old(Uses())[key := now] else old(Uses())
    {
      if key in dirtyMap {
        Touch(dirtyMap[key], now);
        return cells[dirtyMap[key]];
      }
      result := created;
      if created.Some? {
        InsertNew(key, created.value, now);
      }
    }

    // Take one value off the list and drop it.
    method DropValue()
      requires Matches() && deletedValues != [] && deletedValues[0].value !in released
      requires model.gcValues == {}
      modifies this`deletedValues, this`released, this`model
      ensures Matches() && model == Release(PopValue(old(model)), old(deletedValues)[0].value)
      ensures model.gcValues == {}
    {
      var v := deletedValues[0].value;
      deletedValues := deletedValues[1..];
      Deallocate(v);
      model := Release(PopValue(model), v);
    }

    method DropOldest()
      requires Valid() && deletedValues != []
      modifies this`deletedValues, this`released, this`model
      ensures Valid() && Stored(model) == old(Stored(model))
      ensures forall j :: Lookup(model, j) == old(Lookup(model, j))
      ensures deletedValues == old(deletedValues)[1..] && released == old(released) + {old(deletedValues)[0].value}
      ensures cells == old(cells) && deletedMaps == old(deletedMaps)
    {
      PopValueKeeps(model);
      ReleaseKeeps(PopValue(model), deletedValues[0].value);
      DropValue();
    }

    // CheckGc, first half: drop the leading values whose stamp is below the bound.
    method DropOldValues(bound: nat) returns (n: nat)
      requires Valid()
      modifies this`deletedValues, this`released, this`model
      ensures Valid()
      ensures forall j :: Lookup(model, j) == old(Lookup(model, j))
      ensures Stored(model) == old(Stored(model))
      ensures n <= |old(deletedValues)| && deletedValues == old(deletedValues)[n..]
      ensures released == old(released) + (set i | 0 <= i < n :: old(deletedValues)[i].value)
      ensures forall i :: 0 <= i < n ==> old(deletedValues)[i].time < bound
      ensures deletedValues != [] ==> deletedValues[0].time >= bound
      ensures cells == old(cells) && deletedMaps == old(deletedMaps)
    {
      n := 0;
      ghost var was := model;
      while deletedValues != [] && deletedValues[0].time < bound
        invariant Valid() && ValuesGone(was, model, n)
        invariant forall j :: Lookup(model, j) == Lookup(was, j)
        invariant forall i :: 0 <= i < n ==> was.deletedValues[i].time < bound
        decreases |was.deletedValues| - n
      {
        ghost var one := model;
        DropOldest();
        OneValueGone(was, one, model, n);
        n := n + 1;
      }
    }

    // Free the cells a retired map names.
    method FreeNamedCells(d: RetiredMap)
      requires d.keys <= d.inner.Keys && CellsOf(d) <= cells.Keys
      requires forall j, k :: j in d.keys && k in d.keys && d.inner[j] == d.inner[k] ==> j == k
      modifies this`cells
      ensures cells == old(cells) - CellsOf(d)
    {
      var todo := d.keys;
      while todo != {}
        invariant todo <= d.keys
        invariant cells == old(cells) - (set k | k in d.keys && k !in todo && k in d.inner :: d.inner[k])
        decreases todo
      {
        var k :| k in todo;
        assert d.inner[k] in CellsOf(d);
        FreeCell(d.inner[k]);
        todo := todo - {k};
      }
    }

    // Free the tombstones a retired map names, then the map.
    method FreeRetired(d: RetiredMap)
      requires Matches() && Inv(model) && model.gcValues == {} && model.gcMaps == map[d.id := d]
      modifies this`cells, this`model
      ensures Valid()
      ensures model == FreeRetiredMap(old(model), d.id)
      ensures forall j :: Lookup(model, j) == old(Lookup(model, j))
      ensures Stored(model) == old(Stored(model))
    {
      FreeRetiredMapKeeps(model, d.id);
      NamedCells(model, d.id);
      FreeNamedCells(d);
      model := FreeRetiredMap(model, d.id);
    }

    method TakeMap() returns (d: RetiredMap)
      requires Matches() && deletedMaps != []
      modifies this`deletedMaps, this`model
      ensures Matches() && model == PopMap(old(model)) && d == old(deletedMaps)[0]
    {
      d := deletedMaps[0];
      deletedMaps := deletedMaps[1..];
      model := PopMap(model);
    }

    method FreeOldest()
      requires Valid() && deletedMaps != []
      modifies this`deletedMaps, this`cells, this`model
      ensures Valid() && Stored(model) == old(Stored(model))
      ensures forall j :: Lookup(model, j) == old(Lookup(model, j))
      ensures deletedMaps == old(deletedMaps)[1..] && cells == old(cells) - CellsOf(old(deletedMaps)[0])
      ensures released == old(released) && deletedValues == old(deletedValues)
    {
      PopMapKeeps(model);
      var d := TakeMap();
      FreeRetired(d);
    }

    // CheckGc, second half: free the leading retired maps whose stamp is below the bound.
    method FreeOldMaps(bound: nat) returns (n: nat)
      requires Valid()
      modifies this`deletedMaps, this`cells, this`model
      ensures Valid()
      ensures forall j :: Lookup(model, j) == old(Lookup(model, j))
      ensures Stored(model) == old(Stored(model))
      ensures n <= |old(deletedMaps)| && deletedMaps == old(deletedMaps)[n..]
      ensures forall i :: 0 <= i < n ==> old(deletedMaps)[i].time < bound
      ensures deletedMaps != [] ==> deletedMaps[0].time >= bound
      ensures cells == old(cells) - (set i, c | 0 <= i < n && c in CellsOf(old(deletedMaps)[i]) :: c)
      ensures released == old(released) && deletedValues == old(deletedValues)
    {
      n := 0;
      ghost var was := model;
      while deletedMaps != [] && deletedMaps[0].time < bound
        invariant Valid() && MapsGone(was, model, n)
        invariant forall j :: Lookup(model, j) == Lookup(was, j)
        invariant forall i :: 0 <= i < n ==> was.deletedMaps[i].time < bound
        decreases |was.deletedMaps| - n
      {
        ghost var one := model;
        FreeOldest();
        OneMapGone(was, one, model, n);
        n := n + 1;
      }
    }

    // CheckGc frees exactly the leading entries whose stamp is below the bound.
    method CheckGc(bound: nat) returns (values: nat, maps: nat)
      requires Valid()
      modifies this`deletedValues, this`released, this`deletedMaps, this`cells, this`model
      ensures Valid()
      ensures forall j :: Lookup(model, j) == old(Lookup(model, j))
      ensures Uses() == old(Uses())
      ensures Stored(model) == old(Stored(model))
      ensures values <= |old(deletedValues)| && deletedValues == old(deletedValues)[values..]
      ensures forall i :: 0 <= i < values ==> old(deletedValues)[i].time < bound
      ensures deletedValues != [] ==> deletedValues[0].time >= bound
      ensures released == old(released) + (set i | 0 <= i < values :: old(deletedValues)[i].value)
      ensures maps <= |old(deletedMaps)| && deletedMaps == old(deletedMaps)[maps..]
      ensures forall i :: 0 <= i < maps ==> old(deletedMaps)[i].time < bound
      ensures deletedMaps != [] ==> deletedMaps[0].time >= bound
      ensures cells == old(cells) - (set i, c | 0 <= i < maps && c in CellsOf(old(deletedMaps)[i]) :: c)
    {
      values := DropOldValues(bound);
      maps := FreeOldMaps(bound);
    }

    // The keys not used after the given time, each once.
    method CheckExpired(min: nat) returns (expired: seq<Key>)
      requires Valid()
      ensures forall k :: k in expired <==> k in Uses() && Uses()[k] <= min
      ensures forall k :: Lookup(model, k).Some? <==> k in Uses()
      ensures forall i, j :: 0 <= i < j < |expired| ==> expired[i] != expired[j]
    {
      expired := [];
      var todo := dirtyMap.Keys;
      while todo != {}
        invariant todo <= dirtyMap.Keys
        invariant forall k :: k in expired <==> k in Uses() && k !in todo && Uses()[k] <= min
        invariant forall i, j :: 0 <= i < j < |expired| ==> expired[i] != expired[j]
        decreases todo
      {
        var k :| k in todo;
        if usedTime[dirtyMap[k]] <= min {
          expired := expired + [k];
        }
        todo := todo - {k};
      }
    }

    // -------------------------------------------------------------------------------------------
    // The destructor, loop by loop
    // -------------------------------------------------------------------------------------------

    method FreeDirty()
      requires dirtyMap.Values <= cells.Keys
      requires forall k :: k in dirtyMap ==> cells[dirtyMap[k]].Some? && cells[dirtyMap[k]].value !in released
      requires forall j, k :: j in dirtyMap && k in dirtyMap && j != k ==>
                 dirtyMap[j] != dirtyMap[k] && cells[dirtyMap[j]] != cells[dirtyMap[k]]
      modifies this`cells, this`released
      ensures cells == old(cells) - (set k | k in dirtyMap :: dirtyMap[k])
      ensures released == old(released) + (set k | k in dirtyMap :: old(cells)[dirtyMap[k]].value)
    {
      var todo := dirtyMap.Keys;
      while todo != {}
        invariant todo <= dirtyMap.Keys
        invariant cells == old(cells) - (set k | k in dirtyMap && k !in todo :: dirtyMap[k])
        invariant released == old(released) + (set k | k in dirtyMap && k !in todo :: old(cells)[dirtyMap[k]].value)
        decreases todo
      {
        var k :| k in todo;
        var c := dirtyMap[k];
        assert c in cells && cells[c] == old(cells)[c] && cells[c].Some?;
        Deallocate(cells[c].value);
        FreeCell(c);
        todo := todo - {k};
      }
    }

    method FreeTombstones()
      requires ReadInv(model) && readMap == model.readMap && deletedKeys == model.deletedKeys
      requires TombstoneCells(model) <= cells.Keys
      modifies this`cells
      ensures cells == old(cells) - TombstoneCells(model)
    {
      var todo := deletedKeys;
      while todo != {}
        invariant todo <= deletedKeys
        invariant cells == old(cells) - (set k | k in deletedKeys && k !in todo && k in readMap :: readMap[k])
        decreases todo
      {
        var k :| k in todo;
        assert k in readMap;
        assert readMap[k] in TombstoneCells(model);
        assert forall j :: j in deletedKeys && j in readMap && readMap[j] == readMap[k] ==> j == k;
        FreeCell(readMap[k]);
        todo := todo - {k};
      }
    }

    method FreeListedValues()
      requires forall i, j :: 0 <= i < j < |deletedValues| ==> deletedValues[i].value != deletedValues[j].value
      requires forall i :: 0 <= i < |deletedValues| ==> deletedValues[i].value !in released
      modifies this`deletedValues, this`released
      ensures deletedValues == []
      ensures released == old(released) + (set i | 0 <= i < |old(deletedValues)| :: old(deletedValues)[i].value)
    {
      ghost var all := deletedValues;
      ghost var n := 0;
      while deletedValues != []
        invariant n <= |all| && deletedValues == all[n..]
        invariant released == old(released) + (set i | 0 <= i < n :: all[i].value)
        decreases |deletedValues|
      {
        assert deletedValues[0] == all[n];
        Deallocate(deletedValues[0].value);
        deletedValues := deletedValues[1..];
        n := n + 1;
      }
    }

    method FreeListedMaps()
      requires MapListInv(model) && deletedMaps == model.deletedMaps
      requires forall i :: 0 <= i < |deletedMaps| ==> CellsOf(deletedMaps[i]) <= cells.Keys
      requires forall i, j :: 0 <= i < j < |deletedMaps| ==> CellsOf(deletedMaps[i]) !! CellsOf(deletedMaps[j])
      modifies this`deletedMaps, this`cells
      ensures deletedMaps == []
      ensures cells == old(cells) - (set i, c | 0 <= i < |model.deletedMaps| && c in CellsOf(model.deletedMaps[i]) :: c)
    {
      ghost var n := 0;
      while deletedMaps != []
        invariant n <= |model.deletedMaps| && deletedMaps == model.deletedMaps[n..]
        invariant cells == old(cells) - (set i, c | 0 <= i < n && c in CellsOf(model.deletedMaps[i]) :: c)
        decreases |deletedMaps|
      {
        assert deletedMaps[0] == model.deletedMaps[n] && NamesItsTombstones(model, model.deletedMaps[n]);
        FreeNamedCells(deletedMaps[0]);
        deletedMaps := deletedMaps[1..];
        n := n + 1;
      }
    }

    // The loops free disjoint groups of cells and of references.
    method FreeAll()
      requires Matches() && DestructorMayRun(model)
      modifies this`cells, this`released, this`deletedValues, this`deletedMaps
      ensures cells.Keys == old(cells).Keys - DirtyCells(model) - TombstoneCells(model) - RetiredCells(model)
      ensures released == Stored(model)
      ensures deletedValues == [] && deletedMaps == []
    {
      FreeDirty();
      FreeTombstones();
      FreeListedValues();
      FreeListedMaps();
    }

    // After the destructor no cell is left and every reference ever stored has been dropped.
    method Destroy()
      requires Valid()
      modifies this`cells, this`released, this`deletedValues, this`deletedMaps
      ensures cells == map[] && released == Stored(old(model))
      ensures deletedValues == [] && deletedMaps == []
    {
      DestructorRuns(model);
      CellOwnership(model);
      FreeAll();
      assert cells.Keys == {};
    }
  }
}
