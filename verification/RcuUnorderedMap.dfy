// RcuUnorderedMap (polaris/cache/rcu_unordered_map.h): a read map without lock and a dirty map under a
// lock that share their cells, and the lists of replaced values and retired maps.
module RcuUnorderedMap {
  type Key(==, !new)
  type Value(==, !new)
  type CellId = nat

  // A stored pointer; Null is the null pointer, which is also the answer for an absent key.
  datatype Pointer = Null | To(value: Value)

  type InnerMap = map<Key, CellId>

  // owner: the key each cell was made for, in order of allocation; cells: their values.
  datatype Core = Core(
    owner: seq<Key>,
    cells: seq<Pointer>,
    readMap: InnerMap,
    dirtyMap: InnerMap,
    dirtyFlag: bool,
    missTime: nat)

  ghost predicate CellOf(c: Core, m: InnerMap, key: Key) {
    key in m ==> m[key] < |c.cells| == |c.owner| && c.owner[m[key]] == key
  }

  // The read map is part of the dirty map and shares its cells; it is all of it if the flag is down.
  ghost predicate Inv(c: Core) {
    && |c.cells| == |c.owner|
    && (forall key {:trigger CellOf(c, c.dirtyMap, key)} :: CellOf(c, c.dirtyMap, key))
    && (forall key :: key in c.readMap ==> key in c.dirtyMap && c.dirtyMap[key] == c.readMap[key])
    && (!c.dirtyFlag ==> c.readMap == c.dirtyMap)
  }

  // The map that the structure stands for.
  ghost function Contents(c: Core): map<Key, Pointer>
    requires Inv(c)
  {
    map key | key in c.dirtyMap :: assert CellOf(c, c.dirtyMap, key); c.cells[c.dirtyMap[key]]
  }

  ghost function Lookup(c: Core, key: Key): Pointer
    requires Inv(c)
  {
    if key in Contents(c) then Contents(c)[key] else Null
  }

  const Empty: Core := Core([], [], map[], map[], false, 0)

  function Swapped(c: Core): Core {
    c.(readMap := c.dirtyMap, missTime := 0, dirtyFlag := false)
  }

  // A lookup that was answered from the dirty map.
  function Missed(c: Core): Core {
    var m := c.(missTime := c.missTime + 1);
    if m.missTime < |m.dirtyMap| then m else Swapped(m)
  }

  function Replaced(c: Core, key: Key, p: Pointer): Core
    requires key in c.dirtyMap && c.dirtyMap[key] < |c.cells|
  {
    c.(cells := c.cells[c.dirtyMap[key] := p])
  }

  function Inserted(c: Core, key: Key, p: Pointer): Core {
    c.(owner := c.owner + [key], cells := c.cells + [p], dirtyMap := c.dirtyMap[key := |c.cells|], dirtyFlag := true)
  }

  // The remaining part becomes the read map.
  function Erased(c: Core, keys: set<Key>): Core {
    if keys !! c.dirtyMap.Keys then c else Swapped(c.(dirtyMap := c.dirtyMap - keys))
  }

  lemma MissedKeeps(c: Core)
    requires Inv(c)
    ensures Inv(Missed(c)) && Contents(Missed(c)) == Contents(c)
  {
    forall key ensures CellOf(Missed(c), Missed(c).dirtyMap, key) { assert CellOf(c, c.dirtyMap, key); }
  }

  lemma ReplacedKeeps(c: Core, key: Key, p: Pointer)
    requires Inv(c) && key in c.dirtyMap && c.dirtyMap[key] < |c.cells|
    ensures Inv(Replaced(c, key, p)) && Contents(Replaced(c, key, p)) == Contents(c)[key := p]
  {
    var d := Replaced(c, key, p);
    forall k ensures CellOf(d, d.dirtyMap, k) { assert CellOf(c, c.dirtyMap, k); }
    forall k | k in c.dirtyMap && k != key
      ensures d.dirtyMap[k] < |d.cells| && d.cells[d.dirtyMap[k]] == Contents(c)[k]
    {
      assert CellOf(c, c.dirtyMap, k) && CellOf(c, c.dirtyMap, key);
    }
  }

  lemma InsertedKeeps(c: Core, key: Key, p: Pointer)
    requires Inv(c) && key !in c.dirtyMap
    ensures Inv(Inserted(c, key, p)) && Contents(Inserted(c, key, p)) == Contents(c)[key := p]
  {
    var d := Inserted(c, key, p);
    forall k ensures CellOf(d, d.dirtyMap, k) { assert CellOf(c, c.dirtyMap, k); }
    forall k | k in c.dirtyMap
      ensures d.dirtyMap[k] < |d.cells| && d.cells[d.dirtyMap[k]] == Contents(c)[k]
    {
      assert CellOf(c, c.dirtyMap, k);
    }
  }

  lemma ErasedKeeps(c: Core, keys: set<Key>)
    requires Inv(c)
    ensures Inv(Erased(c, keys)) && Contents(Erased(c, keys)) == Contents(c) - keys
  {
    var d := Erased(c, keys);
    forall k ensures CellOf(d, d.dirtyMap, k) { assert CellOf(c, c.dirtyMap, k); }
  }

  // Cell c is in the map, under the key it was made for.
  predicate In(owner: seq<Key>, m: InnerMap, c: CellId) {
    c < |owner| && owner[c] in m && m[owner[c]] == c
  }

  // ---------------------------------------------------------------------------------------------
  // The lists of what waits to be freed
  // ---------------------------------------------------------------------------------------------

  datatype OldValue = OldValue(time: nat, value: Pointer)
  datatype OldMap = OldMap(time: nat, inner: InnerMap)

  ghost predicate Sorted(values: seq<OldValue>) {
    forall i, j :: 0 <= i <= j < |values| ==> values[i].time <= values[j].time
  }

  // The multimap keeps its entries by time, equal ones in the order of insertion.
  ghost predicate ListedAt(before: seq<OldValue>, after: seq<OldValue>, v: OldValue, at: nat) {
    && at <= |before|
    && after == before[..at] + [v] + before[at..]
    && (forall i :: 0 <= i < at ==> before[i].time <= v.time)
    && (forall i :: at <= i < |before| ==> v.time < before[i].time)
  }

  ghost predicate Listed(before: seq<OldValue>, after: seq<OldValue>, v: OldValue) {
    exists at :: ListedAt(before, after, v, at)
  }

  // Those before n are gone: they are exactly the ones older than the limit.
  ghost predicate ValuesFreed(before: seq<OldValue>, after: seq<OldValue>, limit: nat, n: nat) {
    && n <= |before| && after == before[n..]
    && (forall i :: 0 <= i < |before| ==> (before[i].time < limit <==> i < n))
  }

  // Those before n are gone, all older than the limit; the next one is not.
  ghost predicate MapsFreed(before: seq<OldMap>, after: seq<OldMap>, limit: nat, n: nat) {
    && n <= |before| && after == before[n..]
    && (forall i :: 0 <= i < n ==> before[i].time < limit)
    && (n < |before| ==> limit <= before[n].time)
  }

  ghost predicate InSome(owner: seq<Key>, maps: seq<OldMap>, c: CellId) {
    exists i :: 0 <= i < |maps| && In(owner, maps[i].inner, c)
  }

  lemma ListedSorted(before: seq<OldValue>, after: seq<OldValue>, v: OldValue, at: nat)
    requires Sorted(before) && ListedAt(before, after, v, at)
    ensures Sorted(after)
  {
    forall i, j | 0 <= i <= j < |after| ensures after[i].time <= after[j].time {
      assert i < at ==> after[i] == before[i];
      assert j < at ==> after[j] == before[j];
      assert at < i ==> after[i] == before[i - 1];
      assert at < j ==> after[j] == before[j - 1];
    }
  }

  class RcuUnorderedMap {
    var cells: seq<Pointer>
    var readMap: InnerMap
    var dirtyMap: InnerMap
    var dirtyFlag: bool
    var missTime: nat
    var deletedValues: seq<OldValue>
    var deletedMaps: seq<OldMap>
    ghost var owner: seq<Key>

    // Some map holds the cell; when none does any more, the cell is destroyed and its value with it.
    ghost predicate Counted(c: CellId)
      reads this
    {
      In(owner, dirtyMap, c) || In(owner, readMap, c) || InSome(owner, deletedMaps, c)
    }

    ghost function View(): Core
      reads this
    {
      Core(owner, cells, readMap, dirtyMap, dirtyFlag, missTime)
    }

    ghost predicate Valid()
      reads this
    {
      Inv(View()) && Sorted(deletedValues)
    }

    constructor ()
      ensures Valid() && View() == Empty && Contents(View()) == map[]
      ensures deletedValues == [] && deletedMaps == []
    {
      cells, readMap, dirtyMap, dirtyFlag, missTime, owner := [], map[], map[], false, 0, [];
      deletedValues, deletedMaps := [], [];
    }

    // The read map is retired when the dirty map takes its place.
    method CheckSwapInLock(now: nat)
      modifies this`readMap, this`missTime, this`dirtyFlag, this`deletedMaps
      ensures View() == if old(missTime < |dirtyMap|) then old(View()) else Swapped(old(View()))
      ensures deletedMaps ==
        if old(missTime < |dirtyMap|) then old(deletedMaps) else old(deletedMaps) + [OldMap(now, old(readMap))]
      ensures old(missTime >= |dirtyMap|) ==> readMap == dirtyMap && missTime == 0 && !dirtyFlag
    {
      if missTime < |dirtyMap| {
        return;
      }
      deletedMaps := deletedMaps + [OldMap(now, readMap)];
      readMap := dirtyMap;
      missTime := 0;
      dirtyFlag := false;
    }

    // A lookup in one piece answers what the map holds and changes nothing of that; no cell is lost.
    method Get(key: Key, now: nat) returns (p: Pointer)
      requires Valid()
      modifies this`readMap, this`missTime, this`dirtyFlag, this`deletedMaps
      ensures Valid() && p == Lookup(old(View()), key) && Contents(View()) == old(Contents(View()))
      ensures forall c: CellId :: Counted(c) <==> old(Counted(c))
      ensures var missed := key !in old(readMap) && old(dirtyFlag) && key in old(dirtyMap);
        if !missed then View() == old(View()) && deletedMaps == old(deletedMaps)
        else if old(missTime) + 1 < |dirtyMap| then
          missTime == old(missTime) + 1 && readMap == old(readMap) && dirtyFlag && deletedMaps == old(deletedMaps)
        else
          && missTime == 0 && readMap == dirtyMap && !dirtyFlag
          && deletedMaps == old(deletedMaps) + [OldMap(now, old(readMap))]
      ensures key !in old(readMap) && old(dirtyFlag) && key in old(dirtyMap) ==> View() == Missed(old(View()))
    {
      assert CellOf(View(), dirtyMap, key);
      if key in readMap {
        return cells[readMap[key]];
      }
      if !dirtyFlag {
        return Null;
      }
      p := Null;
      if key in dirtyMap {
        p := cells[dirtyMap[key]];
        MissedKeeps(View());
        missTime := missTime + 1;
        CheckSwapInLock(now);
        forall c: CellId ensures Counted(c) <==> old(Counted(c)) {
          SwapCounts(old(deletedMaps), deletedMaps, old(readMap), c);
        }
      }
    }

    lemma SwapCounts(before: seq<OldMap>, after: seq<OldMap>, m: InnerMap, c: CellId)
      requires after == before || exists now: nat :: after == before + [OldMap(now, m)]
      ensures InSome(owner, before, c) ==> InSome(owner, after, c)
      ensures InSome(owner, after, c) ==> InSome(owner, before, c) || In(owner, m, c)
      ensures after != before && In(owner, m, c) ==> InSome(owner, after, c)
    {
      if InSome(owner, before, c) {
        var i :| 0 <= i < |before| && In(owner, before[i].inner, c);
        assert after[i] == before[i];
      }
      if after != before && In(owner, m, c) {
        assert after[|before|].inner == m;
      }
    }

    method Insert(key: Key, p: Pointer)
      requires Valid() && key !in dirtyMap
      modifies this`dirtyMap, this`cells, this`owner, this`dirtyFlag
      ensures Valid() && View() == Inserted(old(View()), key, p)
      ensures Contents(View()) == old(Contents(View()))[key := p]
    {
      InsertedKeeps(View(), key, p);
      dirtyMap := dirtyMap[key := |cells|];
      cells := cells + [p];
      owner := owner + [key];
      dirtyFlag := true;
    }

    // The multimap insertion: after the entries that are not later.
    method List(v: OldValue)
      requires Sorted(deletedValues)
      modifies this`deletedValues
      ensures Sorted(deletedValues) && Listed(old(deletedValues), deletedValues, v)
    {
      ghost var before := deletedValues;
      var at := 0;
      while at < |deletedValues| && deletedValues[at].time <= v.time
        invariant at <= |deletedValues|
        invariant forall i :: 0 <= i < at ==> deletedValues[i].time <= v.time
      {
        at := at + 1;
      }
      deletedValues := deletedValues[..at] + [v] + deletedValues[at..];
      assert ListedAt(before, deletedValues, v, at);
      ListedSorted(before, deletedValues, v, at);
    }

    // The replaced value is listed before the new one is stored.
    method Store(key: Key, p: Pointer, now: nat)
      requires Valid() && key in dirtyMap
      modifies this`cells, this`deletedValues
      ensures Valid() && Contents(View()) == old(Contents(View()))[key := p]
      ensures Listed(old(deletedValues), deletedValues, OldValue(now, old(Lookup(View(), key))))
    {
      assert CellOf(View(), dirtyMap, key);
      ReplacedKeeps(View(), key, p);
      List(OldValue(now, cells[dirtyMap[key]]));
      cells := cells[dirtyMap[key] := p];
    }

    method Update(key: Key, p: Pointer, now: nat)
      requires Valid()
      modifies this
      ensures Valid() && Contents(View()) == old(Contents(View()))[key := p]
      ensures if key in old(Contents(View()))
        then Listed(old(deletedValues), deletedValues, OldValue(now, old(Lookup(View(), key))))
        else deletedValues == old(deletedValues)
      ensures readMap == old(readMap) && deletedMaps == old(deletedMaps)
    {
      if key in dirtyMap {
        Store(key, p, now);
      } else {
        Insert(key, p);
      }
    }

    // The other Update: the value is computed from the present one if there is none or if it is chosen.
    method UpdateIf(key: Key, updater: Pointer -> Pointer, chosen: Pointer -> bool, now: nat) returns (p: Pointer)
      requires Valid()
      modifies this
      ensures Valid() && p == Lookup(View(), key) && key in Contents(View())
      ensures var before := old(Contents(View()));
        Contents(View()) ==
          if key !in before then before[key := updater(Null)]
          else if chosen(before[key]) then before[key := updater(before[key])]
          else before
      ensures var before := old(Contents(View()));
        if key in before && chosen(before[key]) then Listed(old(deletedValues), deletedValues, OldValue(now, before[key]))
        else deletedValues == old(deletedValues)
      ensures readMap == old(readMap) && deletedMaps == old(deletedMaps)
    {
      assert CellOf(View(), dirtyMap, key);
      if key !in dirtyMap {
        p := updater(Null);
        Insert(key, p);
      } else if chosen(cells[dirtyMap[key]]) {
        p := updater(cells[dirtyMap[key]]);
        Store(key, p, now);
      } else {
        p := cells[dirtyMap[key]];
      }
    }

    method CreateOrGet(key: Key, made: Pointer) returns (p: Pointer)
      requires Valid()
      modifies this
      ensures Valid() && p == Lookup(View(), key)
      ensures var before := old(Contents(View()));
        Contents(View()) == if key in before || made == Null then before else before[key := made]
      ensures readMap == old(readMap) && deletedMaps == old(deletedMaps) && deletedValues == old(deletedValues)
    {
      assert CellOf(View(), dirtyMap, key);
      if key in dirtyMap {
        return cells[dirtyMap[key]];
      }
      if made == Null {
        return Null;
      }
      Insert(key, made);
      p := made;
    }

    method EraseAll(keys: seq<Key>) returns (changed: bool)
      modifies this`dirtyMap
      ensures dirtyMap == old(dirtyMap) - set key | key in keys
      ensures changed <==> !((set key | key in keys) !! old(dirtyMap).Keys)
    {
      changed := false;
      var i := 0;
      while i < |keys|
        invariant i <= |keys|
        invariant dirtyMap == old(dirtyMap) - set key | key in keys[..i]
        invariant changed <==> exists key :: key in keys[..i] && key in old(dirtyMap)
      {
        assert keys[..i + 1] == keys[..i] + [keys[i]];
        if keys[i] in dirtyMap {
          dirtyMap := dirtyMap - {keys[i]};
          changed := true;
        }
        i := i + 1;
      }
      assert keys[..i] == keys;
    }

    // The read map is retired; no value is listed.  A cell dies at once if only the dirty map had it.
    method Delete(keys: seq<Key>, now: nat)
      requires Valid()
      modifies this`readMap, this`dirtyMap, this`missTime, this`dirtyFlag, this`deletedMaps
      ensures Valid() && View() == Erased(old(View()), set key | key in keys)
      ensures Contents(View()) == old(Contents(View())) - set key | key in keys
      ensures deletedMaps == old(deletedMaps) +
        if (set key | key in keys) !! old(dirtyMap).Keys then [] else [OldMap(now, old(readMap))]
      ensures !((set key | key in keys) !! old(dirtyMap).Keys) ==> readMap == dirtyMap && missTime == 0 && !dirtyFlag
      ensures forall c: CellId {:trigger Counted(c)} :: old(Counted(c)) && !Counted(c) <==>
        In(owner, old(dirtyMap), c) && owner[c] in keys && !In(owner, old(readMap), c) && !InSome(owner, old(deletedMaps), c)
    {
      ghost var all := set key | key in keys;
      ErasedKeeps(View(), all);
      if keys == [] {
        return;
      }
      var changed := EraseAll(keys);
      if changed {
        deletedMaps := deletedMaps + [OldMap(now, readMap)];
        readMap := dirtyMap;
        missTime := 0;
        dirtyFlag := false;
      }
      assert View() == Erased(old(View()), all);
      forall c: CellId ensures old(Counted(c)) && !Counted(c) <==>
        In(owner, old(dirtyMap), c) && owner[c] in keys && !In(owner, old(readMap), c) && !InSome(owner, old(deletedMaps), c)
      {
        SwapCounts(old(deletedMaps), deletedMaps, old(readMap), c);
      }
    }

    method FreeValues(limit: nat) returns (n: nat)
      requires Sorted(deletedValues)
      modifies this`deletedValues
      ensures ValuesFreed(old(deletedValues), deletedValues, limit, n)
    {
      n := 0;
      assert deletedValues == deletedValues[0..];
      while deletedValues != [] && deletedValues[0].time < limit
        invariant n <= |old(deletedValues)| && deletedValues == old(deletedValues)[n..]
        invariant forall i :: 0 <= i < n ==> old(deletedValues)[i].time < limit
        decreases |deletedValues|
      {
        deletedValues := deletedValues[1..];
        n := n + 1;
      }
    }

    method FreeMaps(limit: nat) returns (n: nat)
      modifies this`deletedMaps
      ensures MapsFreed(old(deletedMaps), deletedMaps, limit, n)
    {
      n := 0;
      assert deletedMaps == deletedMaps[0..];
      while deletedMaps != [] && deletedMaps[0].time < limit
        invariant n <= |old(deletedMaps)| && deletedMaps == old(deletedMaps)[n..]
        invariant forall i :: 0 <= i < n ==> old(deletedMaps)[i].time < limit
        decreases |deletedMaps|
      {
        deletedMaps := deletedMaps[1..];
        n := n + 1;
      }
    }

    // Frees the listed values older than the limit, then the oldest retired maps as long as they are.
    method CheckGc(limit: nat) returns (values: nat, maps: nat)
      requires Valid()
      modifies this`deletedValues, this`deletedMaps
      ensures Valid() && Contents(View()) == old(Contents(View()))
      ensures ValuesFreed(old(deletedValues), deletedValues, limit, values)
      ensures MapsFreed(old(deletedMaps), deletedMaps, limit, maps)
    {
      values := FreeValues(limit);
      maps := FreeMaps(limit);
    }
  }
}
