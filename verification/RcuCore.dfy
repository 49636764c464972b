// RcuMap (polaris/cache/rcu_map.h): a map read without a lock through `readMap` and written under a
// lock through `dirtyMap`.  Both inner maps point at shared cells; a cell whose value is None is a
// tombstone.  Memory is an explicit arena, so that every `delete` of the source is visible here:
// `cells` holds exactly the allocated cells and freeing a cell removes it.
module RcuCore {
  import opened Common

  type Key(==, !new)

  // One counted reference handed over by one insertion.  Two insertions of one object are two
  // references, and the map must drop each of them once.
  type Ref = nat

  type CellId = nat
  type MapId = nat
  type InnerMap = map<Key, CellId>

  datatype RetiredValue = RetiredValue(value: Ref, time: nat)
  datatype RetiredMap = RetiredMap(id: MapId, inner: InnerMap, keys: set<Key>, time: nat)

  // The fields of the source's class, the vectors CheckGc fills before freeing (gcValues, gcMaps),
  // and history: `owner[c]` is the key cell c was allocated for (cell ids are never reused),
  // `tombOf[c]` the read map that cell c was retired with, `linkedAs` the key each stored reference
  // is currently reachable under, `released` the references dropped so far.
  datatype Core = Core(
    owner: seq<Key>,
    cells: map<CellId, Option<Ref>>,
    readId: MapId,
    readMap: InnerMap,
    dirtyMap: InnerMap,
    deletedKeys: set<Key>,
    missTime: nat,
    deletedValues: seq<RetiredValue>,
    deletedMaps: seq<RetiredMap>,
    gcValues: set<Ref>,
    gcMaps: map<MapId, RetiredMap>,
    tombOf: map<CellId, MapId>,
    linkedAs: map<Ref, Key>,
    released: set<Ref>)

  // ---------------------------------------------------------------------------------------------
  // The invariant
  // ---------------------------------------------------------------------------------------------

  // Every key of the dirty map leads to its own allocated cell, and that cell is not a tombstone.
  ghost predicate DirtyInv(s: Core) {
    forall k :: k in s.dirtyMap ==>
      var c := s.dirtyMap[k];
      c in s.cells && c < |s.owner| && s.owner[c] == k && c !in s.tombOf && s.cells[c].Some?
  }

  // A key of the read map shares the dirty map's cell, or is a tombstone listed in deletedKeys.
  ghost predicate ReadInv(s: Core) {
    && (forall k :: k in s.readMap ==>
          var c := s.readMap[k];
          && c in s.cells && c < |s.owner| && s.owner[c] == k && c !in s.tombOf
          && (if k in s.dirtyMap then s.dirtyMap[k] == c else s.cells[c] == None))
    && s.deletedKeys == s.readMap.Keys - s.dirtyMap.Keys
  }

  // Cell c is the dirty map's cell for its key, or the read map's tombstone for it.
  ghost predicate Placed(s: Core, c: CellId) {
    && c < |s.owner|
    && var k := s.owner[c];
       || (k in s.dirtyMap && s.dirtyMap[k] == c)
       || (k in s.deletedKeys && k in s.readMap && s.readMap[k] == c)
  }

  ghost predicate InRetired(s: Core, d: RetiredMap, c: CellId) {
    c < |s.owner| && s.owner[c] in d.keys && s.owner[c] in d.inner && d.inner[s.owner[c]] == c
  }

  // The id of the oldest retired map that CheckGc has not taken off the list.
  function Oldest(s: Core): int {
    s.readId - |s.deletedMaps|
  }

  // A cell retired with a listed read map is an allocated tombstone that this map names; a cell
  // retired with an older map is freed, or named by that map among those waiting to be freed.
  ghost predicate TombstoneKept(s: Core, c: CellId)
    requires c in s.tombOf
  {
    && c < |s.owner|
    && s.tombOf[c] < s.readId
    && (if s.tombOf[c] >= Oldest(s) then
          && c in s.cells && s.cells[c] == None
          && InRetired(s, s.deletedMaps[s.tombOf[c] - Oldest(s)], c)
        else
          c in s.cells ==> s.tombOf[c] in s.gcMaps && InRetired(s, s.gcMaps[s.tombOf[c]], c))
  }

  // No cell leaks: an allocated cell is placed, or retired with a read map not yet freed.
  ghost predicate CellInv(s: Core) {
    && (forall c :: c in s.cells ==> c < |s.owner|)
    && (forall c {:trigger Placed(s, c)} :: c in s.cells && c !in s.tombOf ==> Placed(s, c))
    && (forall c {:trigger TombstoneKept(s, c)} :: c in s.tombOf ==> TombstoneKept(s, c))
  }

  // A retired map names only tombstones it was retired with.
  ghost predicate NamesItsTombstones(s: Core, d: RetiredMap) {
    && (forall k :: k in d.keys ==>
          k in d.inner && d.inner[k] < |s.owner| && s.owner[d.inner[k]] == k
          && d.inner[k] in s.tombOf && s.tombOf[d.inner[k]] == d.id)
  }

  // Retired maps are listed in the order of their ids, without gaps.
  ghost predicate MapListInv(s: Core) {
    && Oldest(s) >= 0
    && (forall i :: 0 <= i < |s.deletedMaps| ==>
          s.deletedMaps[i].id == Oldest(s) + i && NamesItsTombstones(s, s.deletedMaps[i]))
  }

  // A map waiting to be freed still owns the cells of the keys it names.
  ghost predicate GcMapInv(s: Core) {
    forall id :: id in s.gcMaps ==>
      && id < Oldest(s)
      && s.gcMaps[id].id == id
      && NamesItsTombstones(s, s.gcMaps[id])
      && (forall k :: k in s.gcMaps[id].keys ==> s.gcMaps[id].inner[k] in s.cells)
  }

  ghost predicate MemoryInv(s: Core) {
    DirtyInv(s) && ReadInv(s) && CellInv(s) && MapListInv(s) && GcMapInv(s)
  }

  // The key `linkedAs` gives for a reference leads to that reference.
  ghost predicate Reachable(s: Core, v: Ref)
    requires v in s.linkedAs
  {
    && s.linkedAs[v] in s.dirtyMap
    && s.dirtyMap[s.linkedAs[v]] in s.cells
    && s.cells[s.dirtyMap[s.linkedAs[v]]] == Some(v)
  }

  ghost predicate LinkInv(s: Core) {
    && (forall k :: k in s.dirtyMap ==>
          && s.dirtyMap[k] in s.cells && s.cells[s.dirtyMap[k]].Some?
          && s.cells[s.dirtyMap[k]].value in s.linkedAs
          && s.linkedAs[s.cells[s.dirtyMap[k]].value] == k)
    && (forall v {:trigger Reachable(s, v)} :: v in s.linkedAs ==> Reachable(s, v))
  }

  // A reference is linked, or listed once, or waiting, or released.
  ghost predicate ListedOnce(s: Core) {
    && (forall i :: 0 <= i < |s.deletedValues| ==>
          var v := s.deletedValues[i].value;
          v !in s.linkedAs && v !in s.gcValues && v !in s.released)
    && (forall i, j :: 0 <= i < j < |s.deletedValues| ==>
          s.deletedValues[i].value != s.deletedValues[j].value)
    && s.linkedAs.Keys !! s.gcValues !! s.released
  }

  ghost predicate Inv(s: Core) {
    MemoryInv(s) && LinkInv(s) && ListedOnce(s)
  }

  // Every reference ever handed to the map.
  function Stored(s: Core): set<Ref> {
    s.linkedAs.Keys + (set i | 0 <= i < |s.deletedValues| :: s.deletedValues[i].value) + s.gcValues + s.released
  }

  // The abstract map: what the dirty map holds for a key.
  function Lookup(s: Core, k: Key): Option<Ref> {
    if k in s.dirtyMap && s.dirtyMap[k] in s.cells then s.cells[s.dirtyMap[k]] else None
  }

  // ---------------------------------------------------------------------------------------------
  // What the locked sections do
  // ---------------------------------------------------------------------------------------------

  function Empty(): Core {
    Core([], map[], 0, map[], map[], {}, 0, [], [], {}, map[], map[], map[], {})
  }

  // Update of a key that is present: store the new value, retire the old one.
  function Replace(s: Core, k: Key, v: Ref, now: nat): Core
    requires k in s.dirtyMap && s.dirtyMap[k] in s.cells && s.cells[s.dirtyMap[k]].Some?
  {
    var c := s.dirtyMap[k];
    var prev := s.cells[c].value;
    s.(cells := s.cells[c := Some(v)],
       deletedValues := s.deletedValues + [RetiredValue(prev, now)],
       linkedAs := (s.linkedAs - {prev})[v := k])
  }

  // Insertion of a key that is absent but has a tombstone in the read map: reuse that cell.
  function Revive(s: Core, k: Key, v: Ref): Core
    requires k in s.readMap
  {
    s.(cells := s.cells[s.readMap[k] := Some(v)],
       deletedKeys := s.deletedKeys - {k},
       dirtyMap := s.dirtyMap[k := s.readMap[k]],
       linkedAs := s.linkedAs[v := k])
  }

  // Insertion of a key that is in neither map: allocate a cell.
  function Allocate(s: Core, k: Key, v: Ref): Core {
    s.(owner := s.owner + [k],
       cells := s.cells[|s.owner| := Some(v)],
       dirtyMap := s.dirtyMap[k := |s.owner|],
       linkedAs := s.linkedAs[v := k])
  }

  function Insert(s: Core, k: Key, v: Ref): Core {
    if k in s.readMap then Revive(s, k, v) else Allocate(s, k, v)
  }

  // Delete of a key that is present: the value is retired with the stamp `time`; the cell becomes a
  // tombstone if the read map can still reach it and is freed at once otherwise.
  function Remove(s: Core, k: Key, time: nat): Core
    requires k in s.dirtyMap && s.dirtyMap[k] in s.cells && s.cells[s.dirtyMap[k]].Some?
  {
    var c := s.dirtyMap[k];
    var prev := s.cells[c].value;
    s.(cells := if k in s.readMap then s.cells[c := None] else s.cells - {c},
       dirtyMap := s.dirtyMap - {k},
       deletedKeys := if k in s.readMap then s.deletedKeys + {k} else s.deletedKeys,
       deletedValues := s.deletedValues + [RetiredValue(prev, time)],
       linkedAs := s.linkedAs - {prev})
  }

  // The dirty map becomes the read map; the old read map is retired with its tombstones.
  function Swap(s: Core, now: nat): Core {
    s.(readId := s.readId + 1,
       readMap := s.dirtyMap,
       deletedKeys := {},
       missTime := 0,
       deletedMaps := s.deletedMaps + [RetiredMap(s.readId, s.readMap, s.deletedKeys, now)],
       tombOf := map c | c in s.cells.Keys + s.tombOf.Keys &&
                         (c in s.tombOf || (c < |s.owner| && s.owner[c] in s.deletedKeys &&
                                            s.owner[c] in s.readMap && s.readMap[s.owner[c]] == c))
                     :: if c in s.tombOf then s.tombOf[c] else s.readId)
  }

  // A lookup that missed the read map `seen` and found the key in the dirty map counts the miss.
  function CountMiss(s: Core, seen: MapId): Core {
    if s.readId == seen then s.(missTime := s.missTime + 1) else s
  }

  function PopValue(s: Core): Core
    requires s.deletedValues != []
  {
    s.(gcValues := s.gcValues + {s.deletedValues[0].value}, deletedValues := s.deletedValues[1..])
  }

  function Release(s: Core, v: Ref): Core {
    s.(gcValues := s.gcValues - {v}, released := s.released + {v})
  }

  function PopMap(s: Core): Core
    requires s.deletedMaps != []
  {
    s.(gcMaps := s.gcMaps[s.deletedMaps[0].id := s.deletedMaps[0]], deletedMaps := s.deletedMaps[1..])
  }

  function FreeTombstone(s: Core, id: MapId, k: Key): Core
    requires id in s.gcMaps && k in s.gcMaps[id].keys && k in s.gcMaps[id].inner
  {
    var d := s.gcMaps[id];
    s.(cells := s.cells - {d.inner[k]}, gcMaps := s.gcMaps[id := d.(keys := d.keys - {k})])
  }

  function FreeMap(s: Core, id: MapId): Core {
    s.(gcMaps := s.gcMaps - {id})
  }

  // ---------------------------------------------------------------------------------------------
  // Every section keeps the invariant and changes the abstract map as it should
  // ---------------------------------------------------------------------------------------------

  // A reference joins the list of retired values.
  lemma RetireRef(s: Core, t: Core, prev: Ref, now: nat, joined: set<Ref>)
    requires ListedOnce(s) && prev in s.linkedAs && joined !! Stored(s)
    requires t.deletedValues == s.deletedValues + [RetiredValue(prev, now)]
    requires t.linkedAs.Keys == s.linkedAs.Keys - {prev} + joined
    requires t.gcValues == s.gcValues && t.released == s.released
    ensures ListedOnce(t) && Stored(t) == Stored(s) + joined
  {
    assert t.deletedValues[|s.deletedValues|].value == prev;
    assert forall i :: 0 <= i < |s.deletedValues| ==>
        s.deletedValues[i].value in Stored(s) && t.deletedValues[i] == s.deletedValues[i];
    forall x ensures x in Stored(t) <==> x in Stored(s) + joined {
      if i :| 0 <= i < |s.deletedValues| && s.deletedValues[i].value == x {
        assert t.deletedValues[i].value == x;
      }
    }
  }

  // Sections that leave the retired maps and their tombstones alone.
  lemma ListsStay(s: Core, t: Core)
    requires MapListInv(s) && GcMapInv(s) && s.owner <= t.owner && t.tombOf == s.tombOf
    requires t.readId == s.readId && t.deletedMaps == s.deletedMaps && t.gcMaps == s.gcMaps
    requires forall c :: c in s.tombOf && c in s.cells ==> c in t.cells
    ensures MapListInv(t) && GcMapInv(t)
  {
    assert forall d :: NamesItsTombstones(s, d) ==> NamesItsTombstones(t, d);
  }

  lemma ReplaceMemory(s: Core, k: Key, v: Ref, now: nat)
    requires MemoryInv(s) && k in s.dirtyMap
    ensures MemoryInv(Replace(s, k, v, now))
  {
    var t := Replace(s, k, v, now);
    ListsStay(s, t);
    forall c | c in t.cells && c !in t.tombOf ensures Placed(t, c) {
      assert Placed(s, c);
    }
    forall c | c in t.tombOf ensures TombstoneKept(t, c) {
      assert TombstoneKept(s, c);
    }
  }

  lemma ReplaceLinks(s: Core, k: Key, v: Ref, now: nat)
    requires DirtyInv(s) && LinkInv(s) && k in s.dirtyMap && v !in s.linkedAs
    ensures s.cells[s.dirtyMap[k]].value in s.linkedAs
    ensures var t := Replace(s, k, v, now);
      LinkInv(t) && Lookup(t, k) == Some(v) && (forall j :: j != k ==> Lookup(t, j) == Lookup(s, j))
  {
    var t := Replace(s, k, v, now);
    forall x | x in t.linkedAs ensures Reachable(t, x) {
      assert x != v ==> Reachable(s, x);
    }
  }

  lemma ReplaceKeeps(s: Core, k: Key, v: Ref, now: nat)
    requires Inv(s) && k in s.dirtyMap && v !in Stored(s)
    ensures var t := Replace(s, k, v, now);
      && Inv(t)
      && Stored(t) == Stored(s) + {v}
      && Lookup(t, k) == Some(v)
      && (forall j :: j != k ==> Lookup(t, j) == Lookup(s, j))
  {
    ReplaceMemory(s, k, v, now);
    ReplaceLinks(s, k, v, now);
    RetireRef(s, Replace(s, k, v, now), s.cells[s.dirtyMap[k]].value, now, {v});
  }

  lemma ReviveMemory(s: Core, k: Key, v: Ref)
    requires MemoryInv(s) && k !in s.dirtyMap && k in s.readMap
    ensures MemoryInv(Revive(s, k, v))
  {
    ListsStay(s, Revive(s, k, v));
    ReviveCells(s, k, v);
  }

  lemma ReviveCells(s: Core, k: Key, v: Ref)
    requires DirtyInv(s) && ReadInv(s) && CellInv(s) && Oldest(s) >= 0 && k !in s.dirtyMap && k in s.readMap
    ensures CellInv(Revive(s, k, v))
  {
    var t := Revive(s, k, v);
    forall c | c in t.cells && c !in t.tombOf ensures Placed(t, c) {
      assert Placed(s, c);
    }
    forall c | c in t.tombOf ensures TombstoneKept(t, c) {
      assert TombstoneKept(s, c);
    }
  }

  lemma AllocateCells(s: Core, k: Key, v: Ref)
    requires MemoryInv(s) && k !in s.dirtyMap && k !in s.readMap
    ensures CellInv(Allocate(s, k, v)) && |s.owner| !in s.cells && |s.owner| !in s.tombOf
  {
    var t := Allocate(s, k, v);
    forall c | c in t.tombOf ensures TombstoneKept(t, c) && c < |s.owner| {
      assert TombstoneKept(s, c);
    }
    forall c | c in t.cells && c !in t.tombOf ensures Placed(t, c) {
      assert c != |s.owner| ==> Placed(s, c);
    }
  }

  lemma AllocateMemory(s: Core, k: Key, v: Ref)
    requires MemoryInv(s) && k !in s.dirtyMap && k !in s.readMap
    ensures MemoryInv(Allocate(s, k, v))
  {
    AllocateCells(s, k, v);
    ListsStay(s, Allocate(s, k, v));
  }

  lemma ReviveLinks(s: Core, k: Key, v: Ref)
    requires DirtyInv(s) && ReadInv(s) && LinkInv(s) && k !in s.dirtyMap && v !in s.linkedAs && k in s.readMap
    ensures var t := Revive(s, k, v);
      LinkInv(t) && Lookup(t, k) == Some(v) && (forall j :: j != k ==> Lookup(t, j) == Lookup(s, j))
  {
    var t := Revive(s, k, v);
    forall x | x in t.linkedAs ensures Reachable(t, x) {
      assert x != v ==> Reachable(s, x);
    }
  }

  lemma AllocateLinks(s: Core, k: Key, v: Ref)
    requires DirtyInv(s) && LinkInv(s) && k !in s.dirtyMap && v !in s.linkedAs && |s.owner| !in s.cells
    ensures var t := Allocate(s, k, v);
      LinkInv(t) && Lookup(t, k) == Some(v) && (forall j :: j != k ==> Lookup(t, j) == Lookup(s, j))
  {
    var t := Allocate(s, k, v);
    forall x | x in t.linkedAs ensures Reachable(t, x) {
      assert x != v ==> Reachable(s, x);
    }
  }

  lemma JoinRef(s: Core, t: Core, v: Ref)
    requires ListedOnce(s) && v !in Stored(s)
    requires t.deletedValues == s.deletedValues && t.linkedAs.Keys == s.linkedAs.Keys + {v}
    requires t.gcValues == s.gcValues && t.released == s.released
    ensures ListedOnce(t) && Stored(t) == Stored(s) + {v}
  {
    assert forall i :: 0 <= i < |s.deletedValues| ==> s.deletedValues[i].value in Stored(s);
  }

  lemma InsertKeeps(s: Core, k: Key, v: Ref)
    requires Inv(s) && k !in s.dirtyMap && v !in Stored(s)
    ensures var t := Insert(s, k, v);
      && Inv(t)
      && Stored(t) == Stored(s) + {v}
      && Lookup(t, k) == Some(v)
      && (forall j :: j != k ==> Lookup(t, j) == Lookup(s, j))
  {
    JoinRef(s, Insert(s, k, v), v);
    if k in s.readMap {
      ReviveMemory(s, k, v);
      ReviveLinks(s, k, v);
    } else {
      AllocateCells(s, k, v);
      AllocateMemory(s, k, v);
      AllocateLinks(s, k, v);
    }
  }

  lemma RemoveLists(s: Core, k: Key, time: nat)
    requires MemoryInv(s) && k in s.dirtyMap
    ensures var t := Remove(s, k, time); DirtyInv(t) && ReadInv(t) && MapListInv(t) && GcMapInv(t)
  {
    ListsStay(s, Remove(s, k, time));
  }

  lemma RemoveCells(s: Core, k: Key, time: nat)
    requires DirtyInv(s) && ReadInv(s) && CellInv(s) && Oldest(s) >= 0 && k in s.dirtyMap
    ensures CellInv(Remove(s, k, time))
  {
    var t := Remove(s, k, time);
    forall c | c in t.cells && c !in t.tombOf ensures Placed(t, c) {
      assert Placed(s, c);
    }
    forall c | c in t.tombOf ensures TombstoneKept(t, c) {
      assert TombstoneKept(s, c);
    }
  }

  lemma RemoveLinks(s: Core, k: Key, time: nat)
    requires DirtyInv(s) && LinkInv(s) && k in s.dirtyMap
    ensures s.cells[s.dirtyMap[k]].value in s.linkedAs
    ensures var t := Remove(s, k, time);
      LinkInv(t) && Lookup(t, k) == None && (forall j :: j != k ==> Lookup(t, j) == Lookup(s, j))
  {
    var t := Remove(s, k, time);
    forall x | x in t.linkedAs ensures Reachable(t, x) {
      assert Reachable(s, x);
    }
  }

  lemma RemoveKeeps(s: Core, k: Key, time: nat)
    requires Inv(s) && k in s.dirtyMap
    ensures var t := Remove(s, k, time);
      && Inv(t)
      && Stored(t) == Stored(s)
      && Lookup(t, k) == None
      && (forall j :: j != k ==> Lookup(t, j) == Lookup(s, j))
  {
    RemoveLists(s, k, time);
    RemoveCells(s, k, time);
    RemoveLinks(s, k, time);
    RetireRef(s, Remove(s, k, time), s.cells[s.dirtyMap[k]].value, time, {});
  }

  lemma SwapLists(s: Core, now: nat)
    requires MemoryInv(s)
    ensures var t := Swap(s, now); DirtyInv(t) && ReadInv(t) && MapListInv(t) && GcMapInv(t)
  {
    var t := Swap(s, now);
    assert forall i :: 0 <= i < |s.deletedMaps| ==> t.deletedMaps[i] == s.deletedMaps[i];
    assert NamesItsTombstones(t, t.deletedMaps[|s.deletedMaps|]);
    assert forall d :: NamesItsTombstones(s, d) ==> NamesItsTombstones(t, d);
  }

  lemma SwapCells(s: Core, now: nat)
    requires MemoryInv(s)
    ensures CellInv(Swap(s, now))
  {
    var t := Swap(s, now);
    assert forall i :: 0 <= i < |s.deletedMaps| ==> t.deletedMaps[i] == s.deletedMaps[i];
    forall c | c in t.cells && c !in t.tombOf ensures Placed(t, c) {
      assert Placed(s, c);
    }
    forall c | c in t.tombOf ensures TombstoneKept(t, c) {
      if c in s.tombOf {
        assert TombstoneKept(s, c);
      }
    }
  }

  // Swapping the maps leaves every lookup as it was.
  lemma SwapKeeps(s: Core, now: nat)
    requires Inv(s)
    ensures var t := Swap(s, now);
      Inv(t) && Stored(t) == Stored(s) && (forall j :: Lookup(t, j) == Lookup(s, j))
  {
    var t := Swap(s, now);
    SwapLists(s, now);
    SwapCells(s, now);
    forall x | x in t.linkedAs ensures Reachable(t, x) {
      assert Reachable(s, x);
    }
  }

  // Sections that touch neither the dirty map nor the cells it reaches.
  lemma LinksStay(s: Core, t: Core)
    requires LinkInv(s) && t.dirtyMap == s.dirtyMap && t.linkedAs == s.linkedAs
    requires forall k :: k in s.dirtyMap ==> s.dirtyMap[k] in t.cells && t.cells[s.dirtyMap[k]] == s.cells[s.dirtyMap[k]]
    ensures LinkInv(t) && (forall j :: Lookup(t, j) == Lookup(s, j))
  {
    forall x | x in t.linkedAs ensures Reachable(t, x) {
      assert Reachable(s, x);
    }
  }

  lemma PopValueKeeps(s: Core)
    requires Inv(s) && s.deletedValues != []
    ensures var t := PopValue(s);
      Inv(t) && Stored(t) == Stored(s) && (forall j :: Lookup(t, j) == Lookup(s, j))
  {
    var t := PopValue(s);
    MemoryStays(s, t);
    LinksStay(s, t);
    assert forall i :: 0 <= i < |t.deletedValues| ==> t.deletedValues[i] == s.deletedValues[i + 1];
    forall x ensures x in Stored(t) <==> x in Stored(s) {
      if i :| 0 <= i < |s.deletedValues| && s.deletedValues[i].value == x {
        assert i == 0 || t.deletedValues[i - 1].value == x;
      }
    }
  }

  lemma MemoryStays(s: Core, t: Core)
    requires MemoryInv(s)
    requires t.owner == s.owner && t.cells == s.cells && t.tombOf == s.tombOf && t.dirtyMap == s.dirtyMap
    requires t.readId == s.readId && t.readMap == s.readMap && t.deletedKeys == s.deletedKeys
    requires t.deletedMaps == s.deletedMaps && t.gcMaps == s.gcMaps
    ensures MemoryInv(t)
  {
    forall c | c in t.cells && c !in t.tombOf ensures Placed(t, c) {
      assert Placed(s, c);
    }
    forall c | c in t.tombOf ensures TombstoneKept(t, c) {
      assert TombstoneKept(s, c);
    }
  }

  lemma ReleaseKeeps(s: Core, v: Ref)
    requires Inv(s) && v in s.gcValues
    ensures var t := Release(s, v);
      Inv(t) && Stored(t) == Stored(s) && (forall j :: Lookup(t, j) == Lookup(s, j))
  {
    var t := Release(s, v);
    MemoryStays(s, t);
    LinksStay(s, t);
  }

  lemma PopMapKeeps(s: Core)
    requires Inv(s) && s.deletedMaps != []
    ensures var t := PopMap(s);
      Inv(t) && Stored(t) == Stored(s) && (forall j :: Lookup(t, j) == Lookup(s, j))
  {
    LinksStay(s, PopMap(s));
    PopMapMemory(s);
  }

  lemma PopMapMemory(s: Core)
    requires MemoryInv(s) && s.deletedMaps != []
    ensures MemoryInv(PopMap(s))
  {
    var t := PopMap(s);
    assert forall d :: NamesItsTombstones(s, d) ==> NamesItsTombstones(t, d);
    assert forall i :: 0 <= i < |t.deletedMaps| ==> t.deletedMaps[i] == s.deletedMaps[i + 1];
    var d := s.deletedMaps[0];
    forall k | k in d.keys ensures d.inner[k] in t.cells {
      assert TombstoneKept(s, d.inner[k]);
    }
    forall c | c in t.cells && c !in t.tombOf ensures Placed(t, c) {
      assert Placed(s, c);
    }
    forall c | c in t.tombOf ensures TombstoneKept(t, c) {
      assert TombstoneKept(s, c);
    }
  }

  // Freeing a tombstone frees an allocated cell, and no lookup can tell.
  lemma FreeTombstoneKeeps(s: Core, id: MapId, k: Key)
    requires Inv(s) && id in s.gcMaps && k in s.gcMaps[id].keys
    ensures k in s.gcMaps[id].inner && s.gcMaps[id].inner[k] in s.cells
    ensures var t := FreeTombstone(s, id, k);
      Inv(t) && Stored(t) == Stored(s) && (forall j :: Lookup(t, j) == Lookup(s, j))
  {
    FreeTombstoneMemory(s, id, k);
    LinksStay(s, FreeTombstone(s, id, k));
  }

  lemma FreeTombstoneMemory(s: Core, id: MapId, k: Key)
    requires MemoryInv(s) && id in s.gcMaps && k in s.gcMaps[id].keys
    ensures k in s.gcMaps[id].inner && s.gcMaps[id].inner[k] in s.cells
    ensures MemoryInv(FreeTombstone(s, id, k))
  {
    var t := FreeTombstone(s, id, k);
    assert forall d :: NamesItsTombstones(s, d) ==> NamesItsTombstones(t, d);
    forall i, j | i in t.gcMaps && j in t.gcMaps[i].keys ensures t.gcMaps[i].inner[j] in t.cells {
      assert j in s.gcMaps[i].keys;
    }
    forall c | c in t.cells && c !in t.tombOf ensures Placed(t, c) {
      assert Placed(s, c);
    }
    forall c | c in t.tombOf ensures TombstoneKept(t, c) {
      assert TombstoneKept(s, c);
    }
  }

  lemma FreeMapKeeps(s: Core, id: MapId)
    requires Inv(s) && id in s.gcMaps && s.gcMaps[id].keys == {}
    ensures var t := FreeMap(s, id);
      Inv(t) && Stored(t) == Stored(s) && (forall j :: Lookup(t, j) == Lookup(s, j))
  {
    LinksStay(s, FreeMap(s, id));
    FreeMapMemory(s, id);
  }

  lemma FreeMapMemory(s: Core, id: MapId)
    requires MemoryInv(s) && id in s.gcMaps && s.gcMaps[id].keys == {}
    ensures MemoryInv(FreeMap(s, id))
  {
    var t := FreeMap(s, id);
    assert forall d :: NamesItsTombstones(s, d) ==> NamesItsTombstones(t, d);
    forall c | c in t.cells && c !in t.tombOf ensures Placed(t, c) {
      assert Placed(s, c);
    }
    forall c | c in t.tombOf ensures TombstoneKept(t, c) {
      assert TombstoneKept(s, c);
    }
  }

  // ---------------------------------------------------------------------------------------------
  // Ownership
  // ---------------------------------------------------------------------------------------------

  ghost function DirtyCells(s: Core): set<CellId> {
    set k | k in s.dirtyMap :: s.dirtyMap[k]
  }

  ghost function TombstoneCells(s: Core): set<CellId> {
    set k | k in s.deletedKeys && k in s.readMap :: s.readMap[k]
  }

  ghost function CellsOf(d: RetiredMap): set<CellId> {
    set k | k in d.keys && k in d.inner :: d.inner[k]
  }

  // Listed: the retired maps on the list, then those waiting to be freed.
  ghost function RetiredCells(s: Core): set<CellId> {
    (set i, c | 0 <= i < |s.deletedMaps| && c in CellsOf(s.deletedMaps[i]) :: c)
    + (set id, c | id in s.gcMaps && c in CellsOf(s.gcMaps[id]) :: c)
  }

  // The allocated cells are exactly the dirty cells, the current tombstones and the retired
  // tombstones, and no cell is in two of these groups or named by two retired maps.
  lemma CellOwnership(s: Core)
    requires Inv(s)
    ensures s.cells.Keys == DirtyCells(s) + TombstoneCells(s) + RetiredCells(s)
    ensures DirtyCells(s) !! TombstoneCells(s) !! RetiredCells(s)
    ensures forall i, j :: 0 <= i < j < |s.deletedMaps| ==>
              CellsOf(s.deletedMaps[i]) !! CellsOf(s.deletedMaps[j])
    ensures s.deletedKeys == s.readMap.Keys - s.dirtyMap.Keys
    ensures forall k :: k in s.readMap && k in s.dirtyMap ==> s.readMap[k] == s.dirtyMap[k]
  {
    forall c | c in s.cells ensures c in DirtyCells(s) + TombstoneCells(s) + RetiredCells(s) {
      if c in s.tombOf {
        assert TombstoneKept(s, c);
        if s.tombOf[c] >= Oldest(s) {
          assert c in CellsOf(s.deletedMaps[s.tombOf[c] - Oldest(s)]);
        } else {
          assert c in CellsOf(s.gcMaps[s.tombOf[c]]);
        }
      } else {
        assert Placed(s, c);
      }
    }
    RetiredCellsAllocated(s);
  }

  lemma RetiredCellsAllocated(s: Core)
    requires Inv(s)
    ensures forall c :: c in RetiredCells(s) ==> c in s.cells && c in s.tombOf
    ensures forall i, c :: 0 <= i < |s.deletedMaps| && c in CellsOf(s.deletedMaps[i]) ==>
              c in s.tombOf && s.tombOf[c] == Oldest(s) + i
  {
    forall i, c | 0 <= i < |s.deletedMaps| && c in CellsOf(s.deletedMaps[i])
      ensures c in s.cells && c in s.tombOf && s.tombOf[c] == Oldest(s) + i
    {
      assert NamesItsTombstones(s, s.deletedMaps[i]);
      assert TombstoneKept(s, c);
    }
    forall id, c | id in s.gcMaps && c in CellsOf(s.gcMaps[id]) ensures c in s.cells && c in s.tombOf {
      assert NamesItsTombstones(s, s.gcMaps[id]);
    }
  }
}
