// Reclamation in RcuUnorderedMap (polaris/cache/rcu_unordered_map.h) and the raw pointers that
// GetWithRcuTime and GetServiceContext hand to threads inside RCU sections.  Cells are counted by the
// maps that hold them; a cell's value dies with the cell, a replaced value waits in a list.  Thread
// times and MinTime are those of RcuProtocol.
module RcuUnorderedReclaim {
  import opened Common
  import opened RcuUnorderedMap
  import P = RcuProtocol
  import R = RcuCore

  type Tid = P.Tid

  datatype Lookup = Idle | Loaded(key: Key, id: nat, inner: InnerMap)

  // When a value or a map was unlinked and with which stamp it was listed.  The stamp is taken before
  // the unlinking store.
  datatype Unlinked = Unlinked(at: nat, stamp: nat)

  // maps are the retired read maps, oldest first, of which the first `mapsFreed` are freed; `waiting`
  // are the replaced values still listed.  History: where each value was stored, when each value was
  // replaced, the last read map of each cell that has left the dirty map, and the largest MinTime
  // result used to free something.
  datatype State = State(
    times: P.State,
    core: Core,
    maps: seq<InnerMap>,
    mapGone: seq<Unlinked>,
    mapsFreed: nat,
    home: map<Value, CellId>,
    gone: map<Value, Unlinked>,
    waiting: set<Value>,
    freed: set<Value>,
    tomb: map<CellId, nat>,
    cut: nat,
    held: map<Tid, set<Value>>,
    calls: map<Tid, Lookup>)

  // ---------------------------------------------------------------------------------------------
  // Steps
  // ---------------------------------------------------------------------------------------------

  datatype Step =
    | Time(step: P.Step)                              // clock, sections and MinTime
    | Load(t: Tid, key: Key)                          // GetWithRcuTime: load the read map
    | Hit(t: Tid)                                     //   the key is there: load the cell
    | Lock(t: Tid, stamp: nat)                        //   it is not: look under the lock, perhaps swap
    | Create(t: Tid, key: Key, candidate: Pointer)    // CreateOrGet inside a section
    | Store(key: Key, p: Pointer, stamp: nat)         // Update
    | Erase(keys: set<Key>, stamp: nat)               // Delete
    | FreeValue(v: Value, min: nat)                   // CheckGc, first half
    | FreeMap(min: nat)                               // CheckGc, second half

  predicate IsTime(step: P.Step) {
    step.Tick? || step.ReadClock? || step.Publish? || step.Leave? || step.ExitThread?
    || step.ScanClock? || step.ScanLock? || step.ScanThread? || step.ScanDone?
  }

  predicate Inside(s: State, t: Tid) {
    P.InCall(s.times, t) && t in s.held && t in s.calls
  }

  // Stamp and unlinking lie within the slack.
  predicate Stamped(s: State, stamp: nat) {
    stamp <= s.times.clock <= stamp + s.times.slack
  }

  predicate IsNew(s: State, p: Pointer) {
    p.To? ==> p.value !in s.home
  }

  predicate Enabled(s: State, step: Step) {
    match step
    case Time(step) =>
      IsTime(step) && P.Enabled(s.times, step) && (step.Leave? ==> Inside(s, step.t) && s.calls[step.t].Idle?)
    case Load(t, _) => Inside(s, t) && s.calls[t].Idle?
    case Hit(t) => Inside(s, t) && s.calls[t].Loaded? && s.calls[t].key in s.calls[t].inner
    case Lock(t, stamp) => Inside(s, t) && s.calls[t].Loaded? && s.calls[t].key !in s.calls[t].inner && Stamped(s, stamp)
    case Create(t, _, candidate) => Inside(s, t) && s.calls[t].Idle? && IsNew(s, candidate)
    case Store(_, p, stamp) => IsNew(s, p) && Stamped(s, stamp)
    case Erase(_, stamp) => Stamped(s, stamp)
    case FreeValue(v, min) =>
      v in s.waiting && v in s.gone && min in s.times.mins && s.gone[v].stamp < min - s.times.slack
    case FreeMap(min) =>
      s.mapsFreed < |s.mapGone| && min in s.times.mins && s.mapGone[s.mapsFreed].stamp < min - s.times.slack
  }

  function ValueIn(p: Pointer): set<Value> {
    if p.To? then {p.value} else {}
  }

  function CellValue(core: Core, c: CellId): Pointer {
    if c < |core.cells| then core.cells[c] else Null
  }

  function Found(core: Core, key: Key): Pointer {
    if key in core.dirtyMap then CellValue(core, core.dirtyMap[key]) else Null
  }

  // Some map still counts the cell.
  ghost predicate Alive(s: State, c: CellId) {
    || In(s.core.owner, s.core.dirtyMap, c)
    || In(s.core.owner, s.core.readMap, c)
    || exists id :: s.mapsFreed <= id < |s.maps| && In(s.core.owner, s.maps[id], c)
  }

  // What is destroyed with the cells that nobody counts any more after the step.
  ghost function Dying(s: State, t: State): set<Value> {
    set c | 0 <= c < |s.core.cells| && Alive(s, c) && !Alive(t, c) && s.core.cells[c].To? :: s.core.cells[c].value
  }

  // The read map is replaced; it was the last one for those of its cells that have left the dirty map.
  ghost function Retire(s: State, core: Core, stamp: nat): State {
    s.(core := core,
       maps := s.maps + [s.core.readMap],
       mapGone := s.mapGone + [Unlinked(s.times.clock, stamp)],
       tomb := map c | c in s.tomb.Keys + s.core.readMap.Values && (c in s.tomb || !In(core.owner, core.dirtyMap, c))
                     :: if c in s.tomb then s.tomb[c] else |s.maps|)
  }

  ghost function Insert(s: State, key: Key, p: Pointer): State {
    s.(core := Inserted(s.core, key, p), home := if p.To? then s.home[p.value := |s.core.cells|] else s.home)
  }

  ghost function Give(s: State, t: Tid, p: Pointer): State
    requires t in s.held
  {
    s.(held := s.held[t := s.held[t] + ValueIn(p)], calls := s.calls[t := Idle])
  }

  ghost function DoStore(s: State, key: Key, p: Pointer, stamp: nat): State {
    if key !in s.core.dirtyMap || s.core.dirtyMap[key] >= |s.core.cells| then Insert(s, key, p)
    else
      var c := s.core.dirtyMap[key];
      var old_ := s.core.cells[c];
      s.(core := Replaced(s.core, key, p),
         home := if p.To? then s.home[p.value := c] else s.home,
         gone := if old_.To? then s.gone[old_.value := Unlinked(s.times.clock, stamp)] else s.gone,
         waiting := s.waiting + ValueIn(old_))
  }

  ghost function DoErase(s: State, keys: set<Key>, stamp: nat): State {
    if keys !! s.core.dirtyMap.Keys then s
    else
      var t := Retire(s, Erased(s.core, keys), stamp);
      t.(freed := s.freed + Dying(s, t))
  }

  ghost function DoFreeMap(s: State, min: nat): State {
    var t := s.(mapsFreed := s.mapsFreed + 1, cut := Max(s.cut, min));
    t.(freed := s.freed + Dying(s, t))
  }

  ghost function Apply(s: State, step: Step): State
    requires Enabled(s, step)
  {
    match step
    case Time(step) =>
      var t := s.(times := P.Apply(s.times, step));
      if step.Leave? then t.(held := s.held[step.t := {}]) else t
    case Load(t, key) => s.(calls := s.calls[t := Loaded(key, |s.maps|, s.core.readMap)])
    case Hit(t) => Give(s, t, CellValue(s.core, s.calls[t].inner[s.calls[t].key]))
    case Lock(t, stamp) =>
      var key := s.calls[t].key;
      if !s.core.dirtyFlag || key !in s.core.dirtyMap then Give(s, t, Null)
      else
        var given := Give(s, t, Found(s.core, key));
        if s.core.missTime + 1 < |s.core.dirtyMap| then given.(core := Missed(s.core))
        else Retire(given, Missed(s.core), stamp)
    case Create(t, key, candidate) =>
      if key in s.core.dirtyMap then Give(s, t, Found(s.core, key))
      else if candidate == Null then s
      else Give(Insert(s, key, candidate), t, candidate)
    case Store(key, p, stamp) => DoStore(s, key, p, stamp)
    case Erase(keys, stamp) => DoErase(s, keys, stamp)
    case FreeValue(v, min) => s.(waiting := s.waiting - {v}, freed := s.freed + {v}, cut := Max(s.cut, min))
    case FreeMap(min) => DoFreeMap(s, min)
  }

  // ---------------------------------------------------------------------------------------------
  // The invariant
  // ---------------------------------------------------------------------------------------------

  ghost predicate Keyed(s: State, id: nat, key: Key) {
    id < |s.maps| ==> CellOf(s.core, s.maps[id], key)
  }

  // A cell of a retired map is still in the read map, or left the dirty map with that map or later.
  ghost predicate Traced(s: State, id: nat, c: CellId) {
    id < |s.maps| && In(s.core.owner, s.maps[id], c) ==>
      if c in s.tomb then id <= s.tomb[c] else In(s.core.owner, s.core.readMap, c)
  }

  ghost predicate TombOk(s: State, c: CellId) {
    c in s.tomb ==>
      && s.tomb[c] < |s.maps|
      && In(s.core.owner, s.maps[s.tomb[c]], c)
      && !In(s.core.owner, s.core.dirtyMap, c)
  }

  ghost predicate MapsInv(s: State) {
    && Inv(s.core)
    && s.mapsFreed <= |s.maps|
    && (forall id, key {:trigger Keyed(s, id, key)} :: Keyed(s, id, key))
    && (forall id, c {:trigger Traced(s, id, c)} :: Traced(s, id, c))
    && (forall c {:trigger TombOk(s, c)} :: TombOk(s, c))
  }

  // Unlinked not later than the stamp by more than the slack; freed only if a MinTime result is later.
  ghost predicate GoneOk(s: State, g: Unlinked, freed: bool) {
    && g.at <= s.times.clock && g.at <= g.stamp + s.times.slack
    && (freed ==> g.at < s.cut)
  }

  ghost predicate MapOk(s: State, id: nat) {
    id < |s.mapGone| ==> GoneOk(s, s.mapGone[id], id < s.mapsFreed)
  }

  ghost predicate InOrder(s: State, i: nat, j: nat) {
    i <= j < |s.mapGone| ==> s.mapGone[i].at <= s.mapGone[j].at
  }

  ghost predicate ClockInv(s: State) {
    && |s.mapGone| == |s.maps|
    && (s.cut == 0 || s.cut in s.times.mins)
    && (forall id {:trigger MapOk(s, id)} :: MapOk(s, id))
    && (forall i, j {:trigger InOrder(s, i, j)} :: InOrder(s, i, j))
  }

  // The cell is counted by some map, see AliveExactly.
  ghost predicate Standing(s: State, c: CellId) {
    if c in s.tomb then s.mapsFreed <= s.tomb[c] else In(s.core.owner, s.core.dirtyMap, c)
  }

  ghost predicate CellOk(s: State, c: CellId) {
    c < |s.core.cells| && s.core.cells[c].To? ==>
      s.core.cells[c].value in s.home && s.home[s.core.cells[c].value] == c
  }

  // A value is in its cell, and is freed when the cell is; or it was replaced, and is listed or freed.
  ghost predicate ValueOk(s: State, v: Value) {
    if v !in s.home then v !in s.gone && v !in s.waiting && v !in s.freed
    else if v in s.gone then
      && (v in s.waiting <==> v !in s.freed)
      && CellValue(s.core, s.home[v]) != To(v)
      && GoneOk(s, s.gone[v], v in s.freed)
    else
      && v !in s.waiting
      && CellValue(s.core, s.home[v]) == To(v)
      && (v in s.freed <==> !Standing(s, s.home[v]))
  }

  ghost predicate ValuesInv(s: State) {
    && (forall c {:trigger CellOk(s, c)} :: CellOk(s, c))
    && (forall v {:trigger ValueOk(s, v)} :: ValueOk(s, v))
  }

  // While thread t stays in its section, no MinTime result exceeds u.
  ghost predicate Guarded(s: State, t: Tid, u: nat) {
    t in s.times.threads && P.Protected(s.times, t, u)
  }

  // Thread t may use v: whatever unlinked it did so during the section of t.
  ghost predicate Usable(s: State, t: Tid, v: Value) {
    && v in s.home
    && Inside(s, t)
    && if v in s.gone then Guarded(s, t, s.gone[v].at)
       else if s.home[v] in s.tomb then
         s.tomb[s.home[v]] < |s.mapGone| && Guarded(s, t, s.mapGone[s.tomb[s.home[v]]].at)
       else In(s.core.owner, s.core.dirtyMap, s.home[v])
  }

  ghost predicate HeldOk(s: State, t: Tid, v: Value) {
    t in s.held && v in s.held[t] ==> Usable(s, t, v)
  }

  function MapAt(s: State, id: nat): InnerMap {
    if id < |s.maps| then s.maps[id] else s.core.readMap
  }

  ghost predicate CallOk(s: State, t: Tid) {
    t in s.calls && s.calls[t].Loaded? ==>
      && Inside(s, t)
      && s.calls[t].id <= |s.maps|
      && s.calls[t].inner == MapAt(s, s.calls[t].id)
      && (s.calls[t].id < |s.mapGone| ==> Guarded(s, t, s.mapGone[s.calls[t].id].at))
  }

  ghost predicate ThreadsInv(s: State) {
    && (forall t, v {:trigger HeldOk(s, t, v)} :: HeldOk(s, t, v))
    && (forall t {:trigger CallOk(s, t)} :: CallOk(s, t))
  }

  ghost predicate Sound(s: State) {
    MapsInv(s) && ClockInv(s) && ValuesInv(s) && ThreadsInv(s)
  }

  ghost predicate ThreadTime(times: P.State, t: Tid) {
    t in times.threads ==>
      var section := times.threads[t].section;
      && (section.Inside? ==>
            t in times.published && times.published[t].Some? && times.published[t].value == section.time)
      && (!section.Outside? ==> section.time <= times.clock)
  }

  ghost predicate TimeInv(times: P.State) {
    && (forall m :: m in times.mins ==> m <= times.clock)
    && (!times.scan.NoScan? ==> times.scan.min <= times.clock)
    && (forall t {:trigger ThreadTime(times, t)} :: ThreadTime(times, t))
  }

  ghost predicate ReclaimInv(s: State) {
    TimeInv(s.times) && Sound(s)
  }

  // What the times promise to the other steps: nothing unlinked now is freed before a thread that is in
  // a section now leaves it.
  ghost predicate TimesOk(times: P.State) {
    forall t {:trigger P.InCall(times, t)} :: P.InCall(times, t) ==> P.Protected(times, t, times.clock)
  }

  lemma TimesAreOk(times: P.State)
    requires TimeInv(times)
    ensures TimesOk(times)
  {
    forall t | P.InCall(times, t) ensures P.Protected(times, t, times.clock) { assert ThreadTime(times, t); }
  }

  // ---------------------------------------------------------------------------------------------
  // Which cells are alive
  // ---------------------------------------------------------------------------------------------

  lemma AliveExactly(s: State, c: CellId)
    requires MapsInv(s)
    ensures Alive(s, c) <==> Standing(s, c)
  {
    assert TombOk(s, c);
    assert In(s.core.owner, s.core.readMap, c) ==> In(s.core.owner, s.core.dirtyMap, c);
    if c in s.tomb && s.mapsFreed <= s.tomb[c] {
      assert In(s.core.owner, s.maps[s.tomb[c]], c);
    }
    forall id | s.mapsFreed <= id < |s.maps| && In(s.core.owner, s.maps[id], c) ensures Standing(s, c) {
      assert Traced(s, id, c);
    }
  }

  // ---------------------------------------------------------------------------------------------
  // Safety
  // ---------------------------------------------------------------------------------------------

  // No thread has a pointer to a freed value or a freed map.
  ghost predicate Safe(s: State) {
    && (forall t, v :: t in s.held && v in s.held[t] ==> v !in s.freed)
    && (forall t :: t in s.calls && s.calls[t].Loaded? ==> s.mapsFreed <= s.calls[t].id)
  }

  lemma InvIsSafe(s: State)
    requires MapsInv(s) && ClockInv(s) && ValuesInv(s) && ThreadsInv(s)
    ensures Safe(s)
  {
    forall t, v | t in s.held && v in s.held[t] ensures v !in s.freed {
      assert HeldOk(s, t, v) && ValueOk(s, v);
      if v !in s.gone && s.home[v] in s.tomb {
        assert MapOk(s, s.tomb[s.home[v]]);
      }
    }
    forall t | t in s.calls && s.calls[t].Loaded? ensures s.mapsFreed <= s.calls[t].id {
      assert CallOk(s, t) && MapOk(s, s.calls[t].id);
    }
  }

  // ---------------------------------------------------------------------------------------------
  // Steps that leave maps and values alone
  // ---------------------------------------------------------------------------------------------

  lemma StateStays(s: State, u: State)
    requires MapsInv(s) && ClockInv(s) && ValuesInv(s)
    requires u == s.(times := u.times, held := u.held, calls := u.calls)
    requires s.times.clock <= u.times.clock && s.times.slack == u.times.slack && s.times.mins <= u.times.mins
    ensures MapsInv(u) && ClockInv(u) && ValuesInv(u)
  {
    forall id, key ensures Keyed(u, id, key) { assert Keyed(s, id, key); }
    forall id, c ensures Traced(u, id, c) { assert Traced(s, id, c); }
    forall c ensures TombOk(u, c) { assert TombOk(s, c); }
    forall c ensures CellOk(u, c) { assert CellOk(s, c); }
    forall id ensures MapOk(u, id) { assert MapOk(s, id); }
    forall i, j ensures InOrder(u, i, j) { assert InOrder(s, i, j); }
    forall v ensures ValueOk(u, v) { assert ValueOk(s, v); }
  }

  lemma LoadKeeps(s: State, t: Tid, key: Key)
    requires Sound(s) && Enabled(s, Load(t, key))
    ensures Sound(Apply(s, Load(t, key)))
  {
    var u := Apply(s, Load(t, key));
    StateStays(s, u);
    forall x, v ensures HeldOk(u, x, v) { assert HeldOk(s, x, v); assert Usable(s, x, v) ==> Usable(u, x, v); }
    forall x ensures CallOk(u, x) { assert CallOk(s, x); }
  }

  lemma GiveKeeps(s: State, t: Tid, p: Pointer)
    requires Sound(s) && Inside(s, t) && (p.To? ==> Usable(s, t, p.value))
    ensures Sound(Give(s, t, p))
  {
    var u := Give(s, t, p);
    StateStays(s, u);
    forall x, v ensures HeldOk(u, x, v) { assert HeldOk(s, x, v); assert Usable(s, x, v) ==> Usable(u, x, v); }
    forall x ensures CallOk(u, x) { assert CallOk(s, x); }
  }

  // What the dirty map holds may be used by a thread that looks while it is in a section.
  lemma FoundUsable(s: State, t: Tid, key: Key)
    requires MapsInv(s) && ValuesInv(s) && Inside(s, t) && Found(s.core, key).To?
    ensures Usable(s, t, Found(s.core, key).value)
  {
    var c := s.core.dirtyMap[key];
    var v := Found(s.core, key).value;
    assert CellOf(s.core, s.core.dirtyMap, key);
    assert CellOk(s, c) && ValueOk(s, v) && TombOk(s, c);
  }

  // So may what a map holds that was the read map when the thread loaded it in the section.
  lemma HitUsable(s: State, t: Tid)
    requires Sound(s) && Enabled(s, Hit(t))
    ensures var p := CellValue(s.core, s.calls[t].inner[s.calls[t].key]); p.To? ==> Usable(s, t, p.value)
  {
    var id, key := s.calls[t].id, s.calls[t].key;
    assert CallOk(s, t);
    var c := s.calls[t].inner[key];
    if CellValue(s.core, c).To? {
      var v := CellValue(s.core, c).value;
      assert CellOf(s.core, s.core.dirtyMap, key) && Keyed(s, id, key);
      assert In(s.core.owner, s.calls[t].inner, c);
      assert CellOk(s, c) && ValueOk(s, v) && TombOk(s, c) && Traced(s, id, c);
      if c in s.tomb {
        assert InOrder(s, id, s.tomb[c]);
      }
    }
  }

  lemma HitKeeps(s: State, t: Tid)
    requires Sound(s) && Enabled(s, Hit(t))
    ensures Sound(Apply(s, Hit(t)))
  {
    HitUsable(s, t);
    GiveKeeps(s, t, CellValue(s.core, s.calls[t].inner[s.calls[t].key]));
  }

  // ---------------------------------------------------------------------------------------------
  // Sections and MinTime
  // ---------------------------------------------------------------------------------------------

  lemma StaysProtected(s: P.State, step: P.Step, t: Tid, u: nat)
    requires TimeInv(s) && IsTime(step) && P.Enabled(s, step) && step != P.Leave(t)
    requires t in s.threads && P.Protected(s, t, u)
    ensures t in P.Apply(s, step).threads && P.Protected(P.Apply(s, step), t, u)
  {
    assert ThreadTime(s, t);
  }

  lemma TimeKeeps(s: P.State, step: P.Step)
    requires TimeInv(s) && IsTime(step) && P.Enabled(s, step)
    ensures TimeInv(P.Apply(s, step))
    ensures s.clock <= P.Apply(s, step).clock && s.slack == P.Apply(s, step).slack && s.mins <= P.Apply(s, step).mins
  {
    forall t ensures ThreadTime(P.Apply(s, step), t) { assert ThreadTime(s, t); }
  }

  lemma TimeStepKeeps(s: State, step: P.Step)
    requires ReclaimInv(s) && Enabled(s, Time(step))
    ensures ReclaimInv(Apply(s, Time(step)))
  {
    var u := Apply(s, Time(step));
    TimeKeeps(s.times, step);
    StateStays(s, u);
    TimeKeepsThreads(s, step);
  }

  lemma TimeKeepsThreads(s: State, step: P.Step)
    requires TimeInv(s.times) && ThreadsInv(s) && Enabled(s, Time(step))
    ensures ThreadsInv(Apply(s, Time(step)))
  {
    var u := Apply(s, Time(step));
    forall t, v ensures HeldOk(u, t, v) {
      assert HeldOk(s, t, v);
      if t in s.held && v in s.held[t] && step != P.Leave(t) {
        StillUsable(s, step, t, v);
      }
    }
    forall t ensures CallOk(u, t) {
      assert CallOk(s, t);
      if t in s.calls && s.calls[t].Loaded? {
        StillInside(s, step, t);
        if s.calls[t].id < |s.mapGone| {
          StaysProtected(s.times, step, t, s.mapGone[s.calls[t].id].at);
        }
      }
    }
  }

  lemma StillInside(s: State, step: P.Step, t: Tid)
    requires TimeInv(s.times) && Enabled(s, Time(step)) && Inside(s, t) && step != P.Leave(t)
    ensures Inside(Apply(s, Time(step)), t)
  {
    assert ThreadTime(s.times, t);
    StaysProtected(s.times, step, t, s.times.clock);
  }

  lemma StillUsable(s: State, step: P.Step, t: Tid, v: Value)
    requires TimeInv(s.times) && Enabled(s, Time(step)) && Usable(s, t, v) && step != P.Leave(t)
    ensures Usable(Apply(s, Time(step)), t, v)
  {
    StillInside(s, step, t);
    if v in s.gone {
      StaysProtected(s.times, step, t, s.gone[v].at);
    } else if s.home[v] in s.tomb {
      StaysProtected(s.times, step, t, s.mapGone[s.tomb[s.home[v]]].at);
    }
  }

  // ---------------------------------------------------------------------------------------------
  // Insertion and replacement
  // ---------------------------------------------------------------------------------------------

  // The maps are as they were, or the dirty map has one cell more, which is in no other map.
  lemma InsertMaps(s: State, key: Key, p: Pointer)
    requires MapsInv(s) && key !in s.core.dirtyMap
    ensures MapsInv(Insert(s, key, p))
  {
    var u := Insert(s, key, p);
    InsertedKeeps(s.core, key, p);
    forall id, k ensures Keyed(u, id, k) { assert Keyed(s, id, k); }
    forall c, m | m == s.core.dirtyMap || m == s.core.readMap || m in s.maps
      ensures In(u.core.owner, m, c) <==> In(s.core.owner, m, c)
    {
      OldCell(s, key, p, m, c);
    }
    forall id, c ensures Traced(u, id, c) { assert Traced(s, id, c); }
    forall c ensures TombOk(u, c) { assert TombOk(s, c); }
  }

  lemma OldCell(s: State, key: Key, p: Pointer, m: InnerMap, c: CellId)
    requires MapsInv(s) && key !in s.core.dirtyMap
    requires m == s.core.dirtyMap || m == s.core.readMap || m in s.maps
    ensures In(s.core.owner + [key], m, c) <==> In(s.core.owner, m, c)
  {
    if m in s.maps {
      var id :| 0 <= id < |s.maps| && s.maps[id] == m;
      assert Keyed(s, id, key);
    }
    assert CellOf(s.core, s.core.dirtyMap, key);
  }

  lemma InsertValues(s: State, key: Key, p: Pointer)
    requires MapsInv(s) && ValuesInv(s) && key !in s.core.dirtyMap && IsNew(s, p)
    ensures ValuesInv(Insert(s, key, p))
  {
    var u := Insert(s, key, p);
    forall c ensures CellOk(u, c) { assert CellOk(s, c); }
    forall v ensures ValueOk(u, v) {
      assert ValueOk(s, v) && TombOk(s, |s.core.cells|);
      if v in s.home {
        OldCell(s, key, p, s.core.dirtyMap, s.home[v]);
      }
    }
  }

  lemma InsertKeeps(s: State, key: Key, p: Pointer)
    requires Sound(s) && key !in s.core.dirtyMap && IsNew(s, p)
    ensures Sound(Insert(s, key, p))
  {
    var u := Insert(s, key, p);
    InsertMaps(s, key, p);
    InsertValues(s, key, p);
    forall id ensures MapOk(u, id) { assert MapOk(s, id); }
    forall i, j ensures InOrder(u, i, j) { assert InOrder(s, i, j); }
    forall t, v ensures HeldOk(u, t, v) {
      assert HeldOk(s, t, v);
      assert Usable(s, t, v) ==> Usable(u, t, v);
    }
    forall t ensures CallOk(u, t) { assert CallOk(s, t); }
  }

  lemma StoreMaps(s: State, key: Key, p: Pointer, stamp: nat)
    requires MapsInv(s) && ClockInv(s) && key in s.core.dirtyMap && s.core.dirtyMap[key] < |s.core.cells|
    ensures var u := DoStore(s, key, p, stamp); MapsInv(u) && ClockInv(u)
  {
    var u := DoStore(s, key, p, stamp);
    ReplacedKeeps(s.core, key, p);
    forall id, k ensures Keyed(u, id, k) { assert Keyed(s, id, k); }
    forall id, c ensures Traced(u, id, c) { assert Traced(s, id, c); }
    forall c ensures TombOk(u, c) { assert TombOk(s, c); }
    forall id ensures MapOk(u, id) { assert MapOk(s, id); }
    forall i, j ensures InOrder(u, i, j) { assert InOrder(s, i, j); }
  }

  lemma StoreValues(s: State, key: Key, p: Pointer, stamp: nat)
    requires MapsInv(s) && ValuesInv(s) && key in s.core.dirtyMap && s.core.dirtyMap[key] < |s.core.cells|
    requires IsNew(s, p) && Stamped(s, stamp)
    ensures ValuesInv(DoStore(s, key, p, stamp))
  {
    var u := DoStore(s, key, p, stamp);
    var c := s.core.dirtyMap[key];
    assert CellOf(s.core, s.core.dirtyMap, key) && CellOk(s, c) && TombOk(s, c);
    assert Standing(s, c);
    forall x ensures CellOk(u, x) { assert CellOk(s, x); }
    forall v ensures ValueOk(u, v) { assert ValueOk(s, v); }
  }

  lemma StoreThreads(s: State, key: Key, p: Pointer, stamp: nat)
    requires MapsInv(s) && ClockInv(s) && ValuesInv(s) && ThreadsInv(s) && TimesOk(s.times)
    requires key in s.core.dirtyMap && s.core.dirtyMap[key] < |s.core.cells|
    requires IsNew(s, p)
    ensures ThreadsInv(DoStore(s, key, p, stamp))
  {
    var u := DoStore(s, key, p, stamp);
    assert CellOk(s, s.core.dirtyMap[key]);
    forall t, v ensures HeldOk(u, t, v) {
      assert HeldOk(s, t, v) && ValueOk(s, v);
    }
    forall t ensures CallOk(u, t) { assert CallOk(s, t); }
  }

  lemma StoreKeeps(s: State, key: Key, p: Pointer, stamp: nat)
    requires Sound(s) && TimesOk(s.times) && Enabled(s, Store(key, p, stamp))
    ensures Sound(Apply(s, Store(key, p, stamp)))
  {
    assert CellOf(s.core, s.core.dirtyMap, key);
    if key in s.core.dirtyMap {
      StoreMaps(s, key, p, stamp);
      StoreValues(s, key, p, stamp);
      StoreThreads(s, key, p, stamp);
    } else {
      InsertKeeps(s, key, p);
    }
  }

  lemma CreateKeeps(s: State, t: Tid, key: Key, candidate: Pointer)
    requires Sound(s) && Enabled(s, Create(t, key, candidate))
    ensures Sound(Apply(s, Create(t, key, candidate)))
  {
    if key in s.core.dirtyMap {
      if Found(s.core, key).To? {
        FoundUsable(s, t, key);
      }
      GiveKeeps(s, t, Found(s.core, key));
    } else if candidate != Null {
      InsertKeeps(s, key, candidate);
      var u := Insert(s, key, candidate);
      assert Found(u.core, key) == candidate;
      FoundUsable(u, t, key);
      GiveKeeps(u, t, candidate);
    }
  }

  // ---------------------------------------------------------------------------------------------
  // Retiring the read map
  // ---------------------------------------------------------------------------------------------

  // The new maps are one and the same part of the old dirty map.
  ghost predicate Shrinks(s: State, core: Core) {
    && Inv(core)
    && core.owner == s.core.owner && core.cells == s.core.cells
    && core.readMap == core.dirtyMap
    && (forall key :: key in core.dirtyMap ==> key in s.core.dirtyMap && core.dirtyMap[key] == s.core.dirtyMap[key])
  }

  lemma RetireMaps(s: State, core: Core, stamp: nat)
    requires MapsInv(s) && Shrinks(s, core)
    ensures MapsInv(Retire(s, core, stamp))
  {
    var u := Retire(s, core, stamp);
    forall id, key ensures Keyed(u, id, key) {
      assert Keyed(s, id, key) && CellOf(s.core, s.core.dirtyMap, key);
    }
    forall id, c ensures Traced(u, id, c) {
      assert Traced(s, id, c) && TombOk(s, c);
      assert In(s.core.owner, s.core.readMap, c) ==> c in s.core.readMap.Values;
    }
    forall c ensures TombOk(u, c) {
      assert TombOk(s, c);
      if c in u.tomb && c !in s.tomb {
        var key :| key in s.core.readMap && s.core.readMap[key] == c;
        assert CellOf(s.core, s.core.dirtyMap, key);
      }
    }
  }

  lemma RetireClock(s: State, core: Core, stamp: nat)
    requires ClockInv(s) && s.mapsFreed <= |s.maps| && Stamped(s, stamp)
    ensures ClockInv(Retire(s, core, stamp))
  {
    var u := Retire(s, core, stamp);
    forall id ensures MapOk(u, id) { assert MapOk(s, id); }
    forall i, j ensures InOrder(u, i, j) { assert InOrder(s, i, j) && MapOk(s, i); }
  }

  // Every value a thread holds is in a cell that the step leaves in the dirty map or puts in a retired
  // map, or has been replaced.
  ghost predicate HeldStays(s: State, core: Core) {
    forall t, v {:trigger HeldOk(s, t, v)} :: t in s.held && v in s.held[t] && v in s.home && v !in s.gone ==>
      s.home[v] in s.tomb || In(core.owner, core.dirtyMap, s.home[v]) || In(s.core.owner, s.core.readMap, s.home[v])
  }

  lemma RetireThreads(s: State, core: Core, stamp: nat)
    requires MapsInv(s) && ClockInv(s) && ThreadsInv(s) && TimesOk(s.times) && Shrinks(s, core) && HeldStays(s, core)
    ensures ThreadsInv(Retire(s, core, stamp))
  {
    var u := Retire(s, core, stamp);
    forall t, v ensures HeldOk(u, t, v) {
      assert HeldOk(s, t, v);
      if t in s.held && v in s.held[t] && v !in s.gone {
        var c := s.home[v];
        assert In(s.core.owner, s.core.readMap, c) ==> c in s.core.readMap.Values;
      }
    }
    forall t ensures CallOk(u, t) { assert CallOk(s, t); }
  }

  // Freeing the values of the cells that died keeps the account of the values.
  lemma DyingValues(s: State, t: State, u: State)
    requires MapsInv(s) && MapsInv(t) && ValuesInv(s)
    requires t == s.(core := t.core, maps := t.maps, mapGone := t.mapGone,
                     mapsFreed := t.mapsFreed, tomb := t.tomb, cut := t.cut)
    requires t.core.cells == s.core.cells && s.cut <= t.cut
    requires forall c {:trigger Standing(t, c)} :: Standing(t, c) ==> Standing(s, c)
    requires u == t.(freed := s.freed + Dying(s, t))
    ensures ValuesInv(u)
  {
    forall c ensures CellOk(u, c) { assert CellOk(s, c); }
    forall v ensures ValueOk(u, v) {
      assert ValueOk(s, v);
      forall c | 0 <= c < |s.core.cells| && s.core.cells[c] == To(v) ensures v in s.home && s.home[v] == c {
        assert CellOk(s, c);
      }
      if v in s.home {
        AliveExactly(s, s.home[v]);
        AliveExactly(t, s.home[v]);
        assert Standing(t, s.home[v]) == Standing(u, s.home[v]);
      }
    }
  }

  lemma RetiredStanding(s: State, core: Core, stamp: nat, c: CellId)
    requires MapsInv(s) && Shrinks(s, core)
    ensures var u := Retire(s, core, stamp);
      var kept := c in s.tomb || In(core.owner, core.dirtyMap, c) || In(s.core.owner, s.core.readMap, c);
      Standing(u, c) <==> Standing(s, c) && kept
  {
    assert TombOk(s, c);
    assert In(s.core.owner, s.core.readMap, c) ==> c in s.core.readMap.Values;
    if c in s.core.readMap.Values {
      var key :| key in s.core.readMap && s.core.readMap[key] == c;
      assert CellOf(s.core, s.core.dirtyMap, key);
    }
  }

  // A swap frees nothing: all cells stay in the dirty map.
  lemma SwapKeeps(s: State, stamp: nat)
    requires Sound(s) && TimesOk(s.times) && Stamped(s, stamp)
    ensures Sound(Retire(s, Swapped(s.core), stamp))
  {
    var core := Swapped(s.core);
    var u := Retire(s, core, stamp);
    SwappedShrinks(s);
    RetireMaps(s, core, stamp);
    RetireClock(s, core, stamp);
    RetireThreads(s, core, stamp);
    forall c ensures CellOk(u, c) { assert CellOk(s, c); }
    forall v ensures ValueOk(u, v) {
      assert ValueOk(s, v);
      if v in s.home {
        RetiredStanding(s, core, stamp, s.home[v]);
      }
    }
  }

  lemma SwappedShrinks(s: State)
    requires MapsInv(s) && ThreadsInv(s)
    ensures Shrinks(s, Swapped(s.core)) && HeldStays(s, Swapped(s.core))
  {
    var core := Swapped(s.core);
    forall key ensures CellOf(core, core.dirtyMap, key) { assert CellOf(s.core, s.core.dirtyMap, key); }
    forall t, v | t in s.held && v in s.held[t] && v in s.home && v !in s.gone
      ensures s.home[v] in s.tomb || In(core.owner, core.dirtyMap, s.home[v])
    {
      assert HeldOk(s, t, v);
    }
  }

  lemma CountKeeps(s: State, missTime: nat)
    requires Sound(s)
    ensures Sound(s.(core := s.core.(missTime := missTime)))
  {
    var u := s.(core := s.core.(missTime := missTime));
    forall key ensures CellOf(u.core, u.core.dirtyMap, key) { assert CellOf(s.core, s.core.dirtyMap, key); }
    forall id, key ensures Keyed(u, id, key) { assert Keyed(s, id, key); }
    forall id, c ensures Traced(u, id, c) { assert Traced(s, id, c); }
    forall c ensures TombOk(u, c) { assert TombOk(s, c); }
    forall c ensures CellOk(u, c) { assert CellOk(s, c); }
    forall id ensures MapOk(u, id) { assert MapOk(s, id); }
    forall i, j ensures InOrder(u, i, j) { assert InOrder(s, i, j); }
    forall v ensures ValueOk(u, v) { assert ValueOk(s, v); }
    forall t, v ensures HeldOk(u, t, v) { assert HeldOk(s, t, v); }
    forall t ensures CallOk(u, t) { assert CallOk(s, t); }
  }

  lemma LockKeeps(s: State, t: Tid, stamp: nat)
    requires Sound(s) && TimesOk(s.times) && Enabled(s, Lock(t, stamp))
    ensures Sound(Apply(s, Lock(t, stamp)))
  {
    var key := s.calls[t].key;
    if !s.core.dirtyFlag || key !in s.core.dirtyMap {
      GiveKeeps(s, t, Null);
    } else {
      if Found(s.core, key).To? {
        FoundUsable(s, t, key);
      }
      var given := Give(s, t, Found(s.core, key));
      GiveKeeps(s, t, Found(s.core, key));
      if s.core.missTime + 1 < |s.core.dirtyMap| {
        CountKeeps(given, s.core.missTime + 1);
      } else {
        SwapKeeps(given, stamp);
        assert Missed(s.core) == Swapped(given.core);
      }
    }
  }

  // Thread t has the value of a key that is taken away although it is in no read map.
  ghost predicate TakenFrom(s: State, keys: set<Key>, t: Tid, key: Key) {
    && key in keys && key in s.core.dirtyMap && key !in s.core.readMap
    && t in s.held && Found(s.core, key).To? && Found(s.core, key).value in s.held[t]
  }

  ghost predicate ErasesHeld(s: State, step: Step) {
    step.Erase? && exists t, key :: TakenFrom(s, step.keys, t, key)
  }

  lemma ErasedShrinks(s: State, keys: set<Key>)
    requires MapsInv(s) && !(keys !! s.core.dirtyMap.Keys)
    ensures Shrinks(s, Erased(s.core, keys))
  {
    ErasedKeeps(s.core, keys);
  }

  lemma ErasedHeld(s: State, keys: set<Key>, stamp: nat)
    requires MapsInv(s) && ValuesInv(s) && ThreadsInv(s) && !ErasesHeld(s, Erase(keys, stamp))
    requires !(keys !! s.core.dirtyMap.Keys)
    ensures HeldStays(s, Erased(s.core, keys))
  {
    var core := Erased(s.core, keys);
    forall t, v | t in s.held && v in s.held[t] && v in s.home && v !in s.gone && s.home[v] !in s.tomb
      ensures In(core.owner, core.dirtyMap, s.home[v]) || In(s.core.owner, s.core.readMap, s.home[v])
    {
      assert HeldOk(s, t, v) && ValueOk(s, v);
      assert !TakenFrom(s, keys, t, s.core.owner[s.home[v]]);
    }
  }

  lemma EraseKeeps(s: State, keys: set<Key>, stamp: nat)
    requires Sound(s) && TimesOk(s.times) && Enabled(s, Erase(keys, stamp)) && !ErasesHeld(s, Erase(keys, stamp))
    ensures Sound(Apply(s, Erase(keys, stamp)))
  {
    if !(keys !! s.core.dirtyMap.Keys) {
      var core := Erased(s.core, keys);
      var t := Retire(s, core, stamp);
      var u := Apply(s, Erase(keys, stamp));
      ErasedShrinks(s, keys);
      ErasedHeld(s, keys, stamp);
      RetireMaps(s, core, stamp);
      RetireClock(s, core, stamp);
      RetireThreads(s, core, stamp);
      forall c | Standing(t, c) ensures Standing(s, c) { RetiredStanding(s, core, stamp, c); }
      DyingValues(s, t, u);
      FreedOnly(t, u);
    }
  }

  lemma FreedOnly(s: State, u: State)
    requires MapsInv(s) && ClockInv(s) && ThreadsInv(s) && u == s.(freed := u.freed)
    ensures MapsInv(u) && ClockInv(u) && ThreadsInv(u)
  {
    forall id, key ensures Keyed(u, id, key) { assert Keyed(s, id, key); }
    forall id, c ensures Traced(u, id, c) { assert Traced(s, id, c); }
    forall c ensures TombOk(u, c) { assert TombOk(s, c); }
    forall id ensures MapOk(u, id) { assert MapOk(s, id); }
    forall i, j ensures InOrder(u, i, j) { assert InOrder(s, i, j); }
    forall t, v ensures HeldOk(u, t, v) { assert HeldOk(s, t, v); assert Usable(s, t, v) ==> Usable(u, t, v); }
    forall t ensures CallOk(u, t) { assert CallOk(s, t); }
  }

  // ---------------------------------------------------------------------------------------------
  // CheckGc
  // ---------------------------------------------------------------------------------------------

  lemma FreeValueKeeps(s: State, v: Value, min: nat)
    requires Sound(s) && Enabled(s, FreeValue(v, min))
    ensures Sound(Apply(s, FreeValue(v, min)))
  {
    var t := s.(cut := Max(s.cut, min));
    var u := Apply(s, FreeValue(v, min));
    CutKeeps(s, t);
    forall c ensures CellOk(u, c) { assert CellOk(s, c); }
    forall w ensures ValueOk(u, w) { assert ValueOk(s, w); }
    forall id, key ensures Keyed(u, id, key) { assert Keyed(s, id, key); }
    forall id, c ensures Traced(u, id, c) { assert Traced(s, id, c); }
    forall c ensures TombOk(u, c) { assert TombOk(s, c); }
    forall id ensures MapOk(u, id) { assert MapOk(t, id); }
    forall i, j ensures InOrder(u, i, j) { assert InOrder(s, i, j); }
    forall x, w ensures HeldOk(u, x, w) { assert HeldOk(s, x, w); assert Usable(s, x, w) ==> Usable(u, x, w); }
    forall x ensures CallOk(u, x) { assert CallOk(s, x); }
  }

  lemma CutKeeps(s: State, t: State)
    requires ClockInv(s) && t == s.(cut := t.cut) && s.cut <= t.cut && t.cut in t.times.mins + {0}
    ensures ClockInv(t)
  {
    forall id ensures MapOk(t, id) { assert MapOk(s, id); }
    forall i, j ensures InOrder(t, i, j) { assert InOrder(s, i, j); }
  }

  // The oldest retired map goes; t is the state before the cells that it alone kept are freed.
  lemma DropMap(s: State, t: State, min: nat)
    requires Sound(s) && Enabled(s, FreeMap(min))
    requires t == s.(mapsFreed := s.mapsFreed + 1, cut := Max(s.cut, min))
    ensures MapsInv(t) && ClockInv(t) && ThreadsInv(t)
  {
    forall id, key ensures Keyed(t, id, key) { assert Keyed(s, id, key); }
    forall id, c ensures Traced(t, id, c) { assert Traced(s, id, c); }
    forall c ensures TombOk(t, c) { assert TombOk(s, c); }
    forall id ensures MapOk(t, id) { assert MapOk(s, id); }
    forall i, j ensures InOrder(t, i, j) { assert InOrder(s, i, j); }
    forall x, w ensures HeldOk(t, x, w) { assert HeldOk(s, x, w); assert Usable(s, x, w) ==> Usable(t, x, w); }
    forall x ensures CallOk(t, x) { assert CallOk(s, x); }
  }

  lemma FreeMapKeeps(s: State, min: nat)
    requires Sound(s) && Enabled(s, FreeMap(min))
    ensures Sound(DoFreeMap(s, min))
  {
    var t := s.(mapsFreed := s.mapsFreed + 1, cut := Max(s.cut, min));
    DropMap(s, t, min);
    DyingValues(s, t, DoFreeMap(s, min));
    FreedOnly(t, DoFreeMap(s, min));
  }

  // ---------------------------------------------------------------------------------------------
  // Runs
  // ---------------------------------------------------------------------------------------------

  lemma OtherStepKeeps(s: State, step: Step)
    requires Sound(s) && TimesOk(s.times) && Enabled(s, step) && !ErasesHeld(s, step) && !step.Time?
    ensures Sound(Apply(s, step)) && Apply(s, step).times == s.times
  {
    match step
    case Load(t, key) => LoadKeeps(s, t, key);
    case Hit(t) => HitKeeps(s, t);
    case Lock(t, stamp) => LockKeeps(s, t, stamp);
    case Create(t, key, candidate) => CreateKeeps(s, t, key, candidate);
    case Store(key, p, stamp) => StoreKeeps(s, key, p, stamp);
    case Erase(keys, stamp) => EraseKeeps(s, keys, stamp);
    case FreeValue(v, min) => FreeValueKeeps(s, v, min);
    case FreeMap(min) => FreeMapKeeps(s, min);
  }

  lemma StepKeeps(s: State, step: Step)
    requires ReclaimInv(s) && Enabled(s, step) && !ErasesHeld(s, step)
    ensures ReclaimInv(Apply(s, step))
  {
    if step.Time? {
      TimeStepKeeps(s, step.step);
    } else {
      TimesAreOk(s.times);
      OtherStepKeeps(s, step);
    }
  }

  ghost predicate Init(s: State) {
    && P.Init(s.times)
    && s.core == Empty
    && s.maps == [] && s.mapGone == [] && s.mapsFreed == 0 && s.tomb == map[] && s.cut == 0
    && s.home == map[] && s.gone == map[] && s.waiting == {} && s.freed == {}
    && (forall t :: t in s.held ==> s.held[t] == {})
    && (forall t :: t in s.calls ==> s.calls[t] == Idle)
  }

  lemma InitKeeps(s: State)
    requires Init(s)
    ensures ReclaimInv(s)
  {
    forall t ensures ThreadTime(s.times, t) { }
    forall key ensures CellOf(s.core, s.core.dirtyMap, key) { }
  }

  ghost predicate Runs(s: State, steps: seq<Step>)
    decreases |steps|
  {
    steps == [] || (Enabled(s, steps[0]) && Runs(Apply(s, steps[0]), steps[1..]))
  }

  ghost function After(s: State, steps: seq<Step>): State
    requires Runs(s, steps)
    decreases |steps|
  {
    if steps == [] then s else After(Apply(s, steps[0]), steps[1..])
  }

  // Every state of the run is safe.
  ghost predicate SafeThroughout(s: State, steps: seq<Step>)
    requires Runs(s, steps)
    decreases |steps|
  {
    Safe(s) && (steps != [] ==> SafeThroughout(Apply(s, steps[0]), steps[1..]))
  }

  // Some step of the run takes a key away that is in no read map and whose value a thread holds.
  ghost predicate TakesHeld(s: State, steps: seq<Step>)
    requires Runs(s, steps)
    decreases |steps|
  {
    steps != [] && (ErasesHeld(s, steps[0]) || TakesHeld(Apply(s, steps[0]), steps[1..]))
  }

  // Deleting a key that is in no read map frees its value at once.
  lemma ErasedAtOnce(s: State, keys: set<Key>, stamp: nat, t: Tid, key: Key)
    requires ReclaimInv(s) && Enabled(s, Erase(keys, stamp)) && TakenFrom(s, keys, t, key)
    ensures Found(s.core, key).value in Apply(s, Erase(keys, stamp)).freed
    ensures !Safe(Apply(s, Erase(keys, stamp)))
  {
    var core := Erased(s.core, keys);
    var r := Retire(s, core, stamp);
    var c := s.core.dirtyMap[key];
    assert CellOf(s.core, s.core.dirtyMap, key) && TombOk(s, c);
    ErasedShrinks(s, keys);
    RetireMaps(s, core, stamp);
    RetiredStanding(s, core, stamp, c);
    AliveExactly(s, c);
    AliveExactly(r, c);
    assert Found(s.core, key).value in Apply(s, Erase(keys, stamp)).held[t];
  }

  lemma {:induction false} SafeExactlyIf(s: State, steps: seq<Step>)
    requires ReclaimInv(s) && Runs(s, steps)
    ensures SafeThroughout(s, steps) <==> !TakesHeld(s, steps)
    decreases |steps|
  {
    InvIsSafe(s);
    if steps == [] {
    } else if ErasesHeld(s, steps[0]) {
      var t, key :| TakenFrom(s, steps[0].keys, t, key);
      ErasedAtOnce(s, steps[0].keys, steps[0].stamp, t, key);
    } else {
      StepKeeps(s, steps[0]);
      SafeExactlyIf(Apply(s, steps[0]), steps[1..]);
    }
  }

  // Grace-period safety of the map: a run from the start ever leaves a thread in a section with a freed
  // value or a freed map if and only if it deletes, while a thread has its value, a key that is in no
  // read map.
  lemma GracePeriod(init: State, steps: seq<Step>)
    requires Init(init) && Runs(init, steps)
    ensures SafeThroughout(init, steps) <==> !TakesHeld(init, steps)
  {
    InitKeeps(init);
    SafeExactlyIf(init, steps);
  }

  // ---------------------------------------------------------------------------------------------
  // Which deletions are safe whatever the threads look up before
  // ---------------------------------------------------------------------------------------------

  // Every key that is taken away and has a value is in the read map.
  ghost predicate Sheltered(s: State, keys: set<Key>) {
    forall key :: key in keys && key in s.core.dirtyMap && Found(s.core, key).To? ==> key in s.core.readMap
  }

  predicate Looks(step: Step) {
    step.Load? || step.Hit? || step.Lock? || (step.Create? && step.candidate == Null)
  }

  predicate OnlyLooks(steps: seq<Step>) {
    forall i :: 0 <= i < |steps| ==> Looks(steps[i])
  }

  lemma LooksCore(s: State, step: Step)
    requires Enabled(s, step) && Looks(step)
    ensures var core := Apply(s, step).core;
      && core.dirtyMap == s.core.dirtyMap && core.cells == s.core.cells
      && (core.readMap == s.core.readMap || core.readMap == core.dirtyMap)
  {
  }

  // A lookup may make the dirty map the read map, which shelters every key.
  lemma LooksShelter(s: State, step: Step, keys: set<Key>)
    requires Enabled(s, step) && Looks(step) && Sheltered(s, keys)
    ensures Sheltered(Apply(s, step), keys)
  {
    LooksCore(s, step);
    assert forall key :: Found(Apply(s, step).core, key) == Found(s.core, key);
  }

  lemma ShelteredStep(s: State, keys: set<Key>, stamp: nat)
    requires ReclaimInv(s) && Sheltered(s, keys) && Enabled(s, Erase(keys, stamp))
    ensures Safe(Apply(s, Erase(keys, stamp)))
  {
    assert forall t, key :: !TakenFrom(s, keys, t, key);
    StepKeeps(s, Erase(keys, stamp));
    InvIsSafe(Apply(s, Erase(keys, stamp)));
  }

  lemma LookKeeps(s: State, step: Step, keys: set<Key>)
    requires ReclaimInv(s) && Enabled(s, step) && Looks(step) && Sheltered(s, keys)
    ensures ReclaimInv(Apply(s, step)) && Sheltered(Apply(s, step), keys)
  {
    StepKeeps(s, step);
    LooksShelter(s, step, keys);
  }

  lemma {:induction false} ShelteredIsSafe(s: State, looks: seq<Step>, keys: set<Key>, stamp: nat)
    requires ReclaimInv(s) && Sheltered(s, keys) && OnlyLooks(looks) && Runs(s, looks + [Erase(keys, stamp)])
    ensures SafeThroughout(s, looks + [Erase(keys, stamp)])
    decreases |looks|
  {
    var steps := looks + [Erase(keys, stamp)];
    InvIsSafe(s);
    if looks == [] {
      ShelteredStep(s, keys, stamp);
      assert steps[1..] == [];
    } else {
      LookKeeps(s, looks[0], keys);
      assert steps[0] == looks[0] && steps[1..] == looks[1..] + [Erase(keys, stamp)];
      ShelteredIsSafe(Apply(s, looks[0]), looks[1..], keys, stamp);
    }
  }

  lemma Before(s: State, step: Step, rest: seq<Step>)
    requires Enabled(s, step) && Runs(Apply(s, step), rest)
    ensures Runs(s, [step] + rest) && After(s, [step] + rest) == After(Apply(s, step), rest)
    ensures SafeThroughout(s, [step] + rest) ==> SafeThroughout(Apply(s, step), rest)
  {
    assert ([step] + rest)[1..] == rest;
  }

  lemma TwoSteps(s: State, first: Step, second: Step)
    requires Enabled(s, first) && Enabled(Apply(s, first), second)
    ensures Runs(s, [first] + [second]) && After(s, [first] + [second]) == Apply(Apply(s, first), second)
    ensures SafeThroughout(s, [first] + [second]) ==> Safe(Apply(Apply(s, first), second))
  {
    Before(Apply(s, first), second, []);
    assert [second] + [] == [second];
    Before(s, first, [second]);
  }

  // A thread in a section looks up a key that is in no read map; then the key is deleted.
  lemma UnshelteredBreaks(s: State, t: Tid, keys: set<Key>, key: Key, stamp: nat)
    requires ReclaimInv(s) && Inside(s, t) && s.calls[t].Idle? && Stamped(s, stamp)
    requires key in keys && key in s.core.dirtyMap && Found(s.core, key).To? && key !in s.core.readMap
    ensures Runs(s, [Create(t, key, Null)] + [Erase(keys, stamp)])
    ensures !SafeThroughout(s, [Create(t, key, Null)] + [Erase(keys, stamp)])
  {
    StepKeeps(s, Create(t, key, Null));
    var u := Apply(s, Create(t, key, Null));
    assert TakenFrom(u, keys, t, key);
    ErasedAtOnce(u, keys, stamp, t, key);
    TwoSteps(s, Create(t, key, Null), Erase(keys, stamp));
  }

  // Deleting keys is safe after every possible sequence of lookups if and only if the read map has
  // every one of the keys that has a value.
  lemma DeletionSafeExactlyIf(s: State, t: Tid, keys: set<Key>, stamp: nat)
    requires ReclaimInv(s) && Inside(s, t) && s.calls[t].Idle? && Stamped(s, stamp)
    ensures Sheltered(s, keys) <==>
      forall looks {:trigger OnlyLooks(looks)} :: OnlyLooks(looks) && Runs(s, looks + [Erase(keys, stamp)]) ==>
        SafeThroughout(s, looks + [Erase(keys, stamp)])
  {
    forall looks | Sheltered(s, keys) && OnlyLooks(looks) && Runs(s, looks + [Erase(keys, stamp)])
      ensures SafeThroughout(s, looks + [Erase(keys, stamp)])
    {
      ShelteredIsSafe(s, looks, keys, stamp);
    }
    if !Sheltered(s, keys) {
      var key :| key in keys && key in s.core.dirtyMap && Found(s.core, key).To? && key !in s.core.readMap;
      UnshelteredBreaks(s, t, keys, key, stamp);
      assert OnlyLooks([Create(t, key, Null)]);
    }
  }

  lemma CreatedHeld(s: State, t: Tid, key: Key, v: Value)
    requires MapsInv(s) && Enabled(s, Create(t, key, To(v))) && key !in s.core.dirtyMap
    ensures TakenFrom(Apply(s, Create(t, key, To(v))), {key}, t, key)
    ensures Found(Apply(s, Create(t, key, To(v))).core, key) == To(v)
  {
    assert CellOf(s.core, s.core.dirtyMap, key);
  }

  // The shortest failing run: a thread in a section creates a value and gets it, and another thread
  // deletes the key.
  lemma FailingRun(s: State, t: Tid, key: Key, v: Value)
    requires ReclaimInv(s) && Inside(s, t) && s.calls[t].Idle? && key !in s.core.dirtyMap && v !in s.home
    ensures var run := [Create(t, key, To(v))] + [Erase({key}, s.times.clock)];
      && Runs(s, run)
      && t in After(s, run).held && v in After(s, run).held[t] && v in After(s, run).freed
  {
    StepKeeps(s, Create(t, key, To(v)));
    var u := Apply(s, Create(t, key, To(v)));
    CreatedHeld(s, t, key, v);
    ErasedAtOnce(u, {key}, s.times.clock, t, key);
    TwoSteps(s, Create(t, key, To(v)), Erase({key}, s.times.clock));
  }

  // Such a state is reached when a thread enters its first section.
  lemma FirstSection(init: State, t: Tid)
    requires Init(init) && t in init.times.threads && t in init.held && t in init.calls
    ensures var run := [Time(P.ReadClock(t))] + [Time(P.Publish(t))];
      && Runs(init, run)
      && var s := After(init, run); ReclaimInv(s) && Inside(s, t) && s.calls[t].Idle? && s.core == Empty && s.home == map[]
  {
    var first, second := Time(P.ReadClock(t)), Time(P.Publish(t));
    InitKeeps(init);
    StepKeeps(init, first);
    StepKeeps(Apply(init, first), second);
    TwoSteps(init, first, second);
  }

  // An initial state with one thread.
  ghost function Start(t: Tid): State {
    State(
      P.State(R.Empty(), P.Free, 0, 0, map[t := P.Thread(P.Outside, P.Idle, {})], map[], P.NoScan, {}, map[], [], 0),
      Empty, [], [], 0, map[], map[], {}, {}, map[], 0, map[t := {}], map[t := Idle])
  }

  // From there, four steps leave the thread with a freed value.
  lemma FailsFromStart(t: Tid, key: Key, v: Value)
    ensures Init(Start(t))
    ensures
      var run := [Time(P.ReadClock(t))] + ([Time(P.Publish(t))] + ([Create(t, key, To(v))] + [Erase({key}, 0)]));
      && Runs(Start(t), run)
      && var end := After(Start(t), run); t in end.held && v in end.held[t] && v in end.freed
  {
    var a, b, rest := Time(P.ReadClock(t)), Time(P.Publish(t)), [Create(t, key, To(v))] + [Erase({key}, 0)];
    var init := Start(t);
    FirstSection(init, t);
    TwoSteps(init, a, b);
    var s := Apply(Apply(init, a), b);
    FailingRun(s, t, key, v);
    Before(Apply(init, a), b, rest);
    Before(init, a, [b] + rest);
  }

  // ---------------------------------------------------------------------------------------------
  // What each step gives, lists and frees
  // ---------------------------------------------------------------------------------------------

  function InMap(m: map<Key, Pointer>, key: Key): Pointer {
    if key in m then m[key] else Null
  }

  lemma FoundInContents(core: Core, key: Key)
    requires Inv(core)
    ensures Found(core, key) == InMap(Contents(core), key)
  {
    assert CellOf(core, core.dirtyMap, key);
  }

  // The answer of a lookup is what the thread holds from then on, and the map does not change.
  lemma LockHolds(s: State, t: Tid, stamp: nat)
    requires Enabled(s, Lock(t, stamp))
    ensures var u, key := Apply(s, Lock(t, stamp)), s.calls[t].key;
      && u.held == Give(s, t, if s.core.dirtyFlag && key in s.core.dirtyMap then Found(s.core, key) else Null).held
      && u.freed == s.freed && u.waiting == s.waiting
  {
  }

  lemma LockGives(s: State, t: Tid, stamp: nat)
    requires Inv(s.core) && Enabled(s, Lock(t, stamp))
    ensures var u := Apply(s, Lock(t, stamp));
      var answer := if s.core.dirtyFlag then InMap(Contents(s.core), s.calls[t].key) else Null;
      && u.held == s.held[t := s.held[t] + ValueIn(answer)]
      && u.freed == s.freed && u.waiting == s.waiting
  {
    LockHolds(s, t, stamp);
    FoundInContents(s.core, s.calls[t].key);
  }

  lemma LockKeepsContents(s: State, t: Tid, stamp: nat)
    requires Inv(s.core) && Enabled(s, Lock(t, stamp))
    ensures var u := Apply(s, Lock(t, stamp)); Inv(u.core) && Contents(u.core) == Contents(s.core)
  {
    MissedKeeps(s.core);
  }

  // Whether a lookup retires the read map, and with which stamp.
  lemma LockRetires(s: State, t: Tid, stamp: nat)
    requires Enabled(s, Lock(t, stamp))
    ensures var u := Apply(s, Lock(t, stamp));
      var swaps := s.core.dirtyFlag && s.calls[t].key in s.core.dirtyMap && s.core.missTime + 1 >= |s.core.dirtyMap|;
      && u.maps == s.maps + (if swaps then [s.core.readMap] else [])
      && u.mapGone == s.mapGone + (if swaps then [Unlinked(s.times.clock, stamp)] else [])
      && (swaps ==> u.core.readMap == s.core.dirtyMap)
  {
  }

  lemma HitGives(s: State, t: Tid)
    requires Enabled(s, Hit(t)) && s.calls[t].inner[s.calls[t].key] < |s.core.cells|
    ensures var u := Apply(s, Hit(t));
      && u.core == s.core && u.freed == s.freed && u.waiting == s.waiting
      && u.held == s.held[t := s.held[t] + ValueIn(s.core.cells[s.calls[t].inner[s.calls[t].key]])]
  {
  }

  lemma CreateGives(s: State, t: Tid, key: Key, candidate: Pointer)
    requires Inv(s.core) && Enabled(s, Create(t, key, candidate))
    ensures var u, m := Apply(s, Create(t, key, candidate)), Contents(s.core);
      && Inv(u.core) && u.freed == s.freed && u.waiting == s.waiting
      && Contents(u.core) == (if key in m || candidate == Null then m else m[key := candidate])
      && u.held[t] == s.held[t] + ValueIn(if key in m then m[key] else candidate)
  {
    FoundInContents(s.core, key);
    if key !in s.core.dirtyMap && candidate != Null {
      InsertedKeeps(s.core, key, candidate);
    }
  }

  // Update lists the value it replaces with its stamp and frees nothing.
  lemma StoreLists(s: State, key: Key, p: Pointer, stamp: nat)
    requires Inv(s.core) && Enabled(s, Store(key, p, stamp))
    ensures var u, old_ := Apply(s, Store(key, p, stamp)), InMap(Contents(s.core), key);
      && Inv(u.core) && Contents(u.core) == Contents(s.core)[key := p]
      && u.waiting == s.waiting + ValueIn(old_) && u.freed == s.freed && u.held == s.held
      && (old_.To? ==> old_.value in u.gone && u.gone[old_.value] == Unlinked(s.times.clock, stamp))
  {
    FoundInContents(s.core, key);
    assert CellOf(s.core, s.core.dirtyMap, key);
    if key in s.core.dirtyMap {
      ReplacedKeeps(s.core, key, p);
    } else {
      InsertedKeeps(s.core, key, p);
    }
  }

  // Delete frees exactly the values of the deleted keys that are in no read map; the others die with the
  // retired maps.  It lists no value.
  lemma EraseFreesExactly(s: State, keys: set<Key>, stamp: nat, v: Value)
    requires ReclaimInv(s) && Enabled(s, Erase(keys, stamp))
    ensures var u := Apply(s, Erase(keys, stamp));
      && Inv(u.core) && Contents(u.core) == Contents(s.core) - keys && u.waiting == s.waiting && u.held == s.held
      && u.maps == s.maps + (if keys !! s.core.dirtyMap.Keys then [] else [s.core.readMap])
      && (v in u.freed <==> v in s.freed || TakesLast(s, keys, v))
  {
    ErasedKeeps(s.core, keys);
    if keys !! s.core.dirtyMap.Keys {
      assert Contents(s.core) - keys == Contents(s.core);
    } else {
      var core := Erased(s.core, keys);
      var r := Retire(s, core, stamp);
      ErasedShrinks(s, keys);
      RetireMaps(s, core, stamp);
      forall c: nat | c < |s.core.cells| && s.core.cells[c] == To(v)
        ensures Alive(s, c) && !Alive(r, c) <==>
          c < |s.core.owner| && TakenCell(s, keys, s.core.owner[c], c)
      {
        DyingCell(s, keys, stamp, c);
      }
      if v in Dying(s, r) {
        var c :| 0 <= c < |s.core.cells| && Alive(s, c) && !Alive(r, c) && s.core.cells[c] == To(v);
        assert TakenCell(s, keys, s.core.owner[c], c);
      }
      forall key | key in keys && key in s.core.dirtyMap && key !in s.core.readMap && Found(s.core, key) == To(v)
        ensures v in Dying(s, r)
      {
        var c := s.core.dirtyMap[key];
        assert CellOf(s.core, s.core.dirtyMap, key);
        assert TakenCell(s, keys, s.core.owner[c], c);
      }
    }
  }

  // The value is that of a deleted key which is in no read map.
  ghost predicate TakesLast(s: State, keys: set<Key>, v: Value) {
    exists key :: key in keys && key in s.core.dirtyMap && key !in s.core.readMap && Found(s.core, key) == To(v)
  }

  // The cell is the dirty map's for a deleted key that is in no read map.
  ghost predicate TakenCell(s: State, keys: set<Key>, key: Key, c: CellId) {
    key in keys && key in s.core.dirtyMap && s.core.dirtyMap[key] == c && key !in s.core.readMap
  }

  lemma DyingCell(s: State, keys: set<Key>, stamp: nat, c: CellId)
    requires MapsInv(s) && c < |s.core.cells| && !(keys !! s.core.dirtyMap.Keys)
    ensures c < |s.core.owner|
    ensures Alive(s, c) && !Alive(Retire(s, Erased(s.core, keys), stamp), c) <==> TakenCell(s, keys, s.core.owner[c], c)
  {
    var core := Erased(s.core, keys);
    ErasedShrinks(s, keys);
    RetireMaps(s, core, stamp);
    RetiredStanding(s, core, stamp, c);
    AliveExactly(s, c);
    AliveExactly(Retire(s, core, stamp), c);
    assert TombOk(s, c) && CellOf(s.core, s.core.dirtyMap, s.core.owner[c]);
  }

  // Freeing a retired map frees exactly the values of the cells for which it was the last.
  lemma FreeMapFreesExactly(s: State, min: nat, v: Value)
    requires ReclaimInv(s) && Enabled(s, FreeMap(min))
    ensures var u := Apply(s, FreeMap(min));
      && u.core == s.core && u.waiting == s.waiting && u.held == s.held
      && var last := v in s.home && v !in s.gone && s.home[v] in s.tomb && s.tomb[s.home[v]] == s.mapsFreed;
         v in u.freed <==> v in s.freed || last
  {
    var u := Apply(s, FreeMap(min));
    StepKeeps(s, FreeMap(min));
    assert ValueOk(s, v) && ValueOk(u, v);
  }
}
