// The RCU protocol around RcuMap: lock-free lookups (polaris/cache/rcu_map.h), the published thread
// times (polaris/cache/rcu_time.cpp) and the reclamation in ClearCache
// (polaris/context/context_impl.cpp), as a machine whose steps are the single shared-memory accesses
// of the source.  Any number of threads interleave.
module RcuProtocol {
  import opened Common
  import opened RcuCore

  type Tid = nat

  // Where a thread is between RcuEnter and RcuExit.  RcuEnter reads the clock first and publishes
  // the value later.
  datatype Section = Outside | Entering(time: nat) | Inside(time: nat)

  // Where a thread is in one lookup.  `seen` is history: what the abstract map held for the key at
  // each moment since the call started.
  datatype Call =
    | Idle
    | Loaded(key: Key, id: MapId, inner: InnerMap, seen: set<Option<Ref>>)
    | AtCell(key: Key, id: MapId, cell: CellId, seen: set<Option<Ref>>)
    | Missed(key: Key, id: MapId, seen: set<Option<Ref>>)
    | Returned(key: Key, result: Option<Ref>, seen: set<Option<Ref>>)

  // `held` are the references the thread got from lookups since it entered the section.
  datatype Thread = Thread(section: Section, call: Call, held: set<Ref>)

  // What the holder of dirty_lock_ is in the middle of: it has unlinked a value or a map and still
  // has to stamp it, or it has stamped a deletion and still has to clear the cell.
  datatype Lock = Free | StampingValue | StampingMap | Deleting(key: Key, time: nat)

  // MinTime: the clock is read, then the thread times are read one at a time.
  datatype Scan = NoScan | ClockRead(min: nat) | Scanning(todo: set<Tid>, min: nat)

  // `published[t]` is the thread_time_ of a registered thread, None standing for kMaxTime; `slack` is
  // cache_clear_time_; `mins` are the results of MinTime so far.  History: when each value and each
  // read map was unlinked, and the largest MinTime result that was used to reclaim something.
  datatype State = State(
    core: Core,
    lock: Lock,
    clock: nat,
    slack: nat,
    threads: map<Tid, Thread>,
    published: map<Tid, Option<nat>>,
    scan: Scan,
    mins: set<nat>,
    unlinkedAt: map<Ref, nat>,
    mapUnlinkedAt: seq<nat>,
    cut: nat)

  // ---------------------------------------------------------------------------------------------
  // Steps
  // ---------------------------------------------------------------------------------------------

  datatype Step =
    | Tick(now: nat)
    | ReadClock(t: Tid)
    | Publish(t: Tid)
    | Leave(t: Tid)
    | ExitThread(t: Tid)
    | LoadMap(t: Tid, key: Key)
    | Find(t: Tid)
    | LoadValue(t: Tid)
    | LookUnderLock(t: Tid)
    | CreateOrGet(t: Tid, key: Key, created: Option<Ref>)
    | StoreValue(key: Key, value: Ref)
    | StampValue
    | StampMap
    | StampDelete(key: Key, time: nat)
    | ClearCell
    | ScanClock
    | ScanLock
    | ScanThread(t: Tid)
    | ScanDone
    | TakeValue(min: nat)
    | DropValue(value: Ref)
    | TakeMap(min: nat)
    | DropTombstone(id: MapId, key: Key)
    | DropMap(id: MapId)

  function Saw(c: Call, core: Core): Call {
    match c
    case Loaded(k, id, m, seen) => Loaded(k, id, m, seen + {Lookup(core, k)})
    case AtCell(k, id, cell, seen) => AtCell(k, id, cell, seen + {Lookup(core, k)})
    case Missed(k, id, seen) => Missed(k, id, seen + {Lookup(core, k)})
    case _ => c
  }

  // Every call in progress observes the new abstract map.
  function Observe(threads: map<Tid, Thread>, core: Core): map<Tid, Thread> {
    map t | t in threads :: threads[t].(call := Saw(threads[t].call, core))
  }

  function WithCore(s: State, core: Core): State {
    s.(core := core, threads := Observe(s.threads, core))
  }

  predicate InCall(s: State, t: Tid) {
    t in s.threads && s.threads[t].section.Inside?
  }

  predicate MayStart(s: State, t: Tid) {
    InCall(s, t) && (s.threads[t].call.Idle? || s.threads[t].call.Returned?)
  }

  predicate Enabled(s: State, step: Step) {
    match step
    case Tick(now) => s.clock <= now
    case ReadClock(t) => t in s.threads && s.threads[t].section.Outside?
    case Publish(t) =>
      // The first RcuEnter of a thread registers it under the lock MinTime holds while scanning.
      t in s.threads && s.threads[t].section.Entering? && (t in s.published || !s.scan.Scanning?)
    case Leave(t) => MayStart(s, t)
    case ExitThread(t) => t in s.threads && s.threads[t].section.Outside? && !s.scan.Scanning?
    case LoadMap(t, _) => MayStart(s, t)
    case Find(t) => InCall(s, t) && s.threads[t].call.Loaded?
    case LoadValue(t) => InCall(s, t) && s.threads[t].call.AtCell? && s.threads[t].call.cell in s.core.cells
    case LookUnderLock(t) => InCall(s, t) && s.threads[t].call.Missed? && s.lock.Free?
    case CreateOrGet(t, key, created) =>
      MayStart(s, t) && s.lock.Free? && (created.Some? ==> created.value !in Stored(s.core))
    case StoreValue(key, value) => s.lock.Free? && value !in Stored(s.core)
    case StampValue => s.lock.StampingValue? && s.core.deletedValues != []
    case StampMap => s.lock.StampingMap? && s.core.deletedMaps != []
    case StampDelete(key, time) => s.lock.Free? && key in s.core.dirtyMap && time <= s.clock
    case ClearCell =>
      // The assumption under which the slack is enough: stamp and unlink lie within it.
      s.lock.Deleting? && s.clock <= s.lock.time + s.slack &&
      s.lock.key in s.core.dirtyMap && Lookup(s.core, s.lock.key).Some?
    case ScanClock => s.scan.NoScan?
    case ScanLock => s.scan.ClockRead?
    case ScanThread(t) => s.scan.Scanning? && t in s.scan.todo && t in s.published
    case ScanDone => s.scan.Scanning? && s.scan.todo == {}
    case TakeValue(min) =>
      s.lock.Free? && min in s.mins && s.core.deletedValues != [] && s.core.deletedValues[0].time < min - s.slack
    case DropValue(value) => value in s.core.gcValues
    case TakeMap(min) =>
      s.lock.Free? && min in s.mins && s.core.deletedMaps != [] && s.core.deletedMaps[0].time < min - s.slack
    case DropTombstone(id, key) =>
      id in s.core.gcMaps && key in s.core.gcMaps[id].keys && key in s.core.gcMaps[id].inner
    case DropMap(id) => id in s.core.gcMaps && s.core.gcMaps[id].keys == {}
  }

  function SetThread(s: State, t: Tid, th: Thread): State {
    s.(threads := s.threads[t := th])
  }

  function Held(v: Option<Ref>): set<Ref> {
    if v.Some? then {v.value} else {}
  }

  function DoLookUnderLock(s: State, t: Tid): State
    requires Enabled(s, LookUnderLock(t))
  {
    var th := s.threads[t];
    var k := th.call.key;
    var result := Lookup(s.core, k);
    var s1 := SetThread(s, t, th.(call := Returned(k, result, th.call.seen), held := th.held + Held(result)));
    if k !in s.core.dirtyMap then
      s1
    else
      var counted := CountMiss(s.core, th.call.id);
      if counted.missTime < |counted.dirtyMap| then
        WithCore(s1, counted)
      else
        WithCore(s1, Swap(counted, s.clock)).(
          lock := StampingMap,
          mapUnlinkedAt := s.mapUnlinkedAt + [s.clock])
  }

  function DoCreateOrGet(s: State, t: Tid, key: Key, created: Option<Ref>): State
    requires Enabled(s, CreateOrGet(t, key, created))
  {
    var th := s.threads[t];
    var was := Lookup(s.core, key);
    if key in s.core.dirtyMap then
      SetThread(s, t, th.(call := Returned(key, was, {was}), held := th.held + Held(was)))
    else if created.None? then
      SetThread(s, t, th.(call := Returned(key, None, {was})))
    else
      WithCore(
        SetThread(s, t, th.(call := Returned(key, created, {was, created}), held := th.held + Held(created))),
        Insert(s.core, key, created.value))
  }

  function DoStoreValue(s: State, key: Key, value: Ref): State
    requires Enabled(s, StoreValue(key, value))
  {
    if key in s.core.dirtyMap && Lookup(s.core, key).Some? then
      WithCore(s, Replace(s.core, key, value, s.clock)).(
        lock := StampingValue,
        unlinkedAt := s.unlinkedAt[Lookup(s.core, key).value := s.clock])
    else
      WithCore(s, Insert(s.core, key, value))
  }

  // The stamp of the value or map unlinked last is read after the unlinking store.
  function StampLastValue(c: Core, now: nat): Core
    requires c.deletedValues != []
  {
    var n := |c.deletedValues| - 1;
    c.(deletedValues := c.deletedValues[n := c.deletedValues[n].(time := now)])
  }

  function StampLastMap(c: Core, now: nat): Core
    requires c.deletedMaps != []
  {
    var n := |c.deletedMaps| - 1;
    c.(deletedMaps := c.deletedMaps[n := c.deletedMaps[n].(time := now)])
  }

  function Apply(s: State, step: Step): State
    requires Enabled(s, step)
  {
    match step
    case Tick(now) => s.(clock := now)
    case ReadClock(t) => SetThread(s, t, s.threads[t].(section := Entering(s.clock)))
    case Publish(t) =>
      SetThread(s, t, s.threads[t].(section := Inside(s.threads[t].section.time))).(
        published := s.published[t := Some(s.threads[t].section.time)])
    case Leave(t) => SetThread(s, t, Thread(Outside, Idle, {})).(published := s.published[t := None])
    case ExitThread(t) => s.(published := s.published - {t})
    case LoadMap(t, key) =>
      SetThread(s, t, s.threads[t].(call := Loaded(key, s.core.readId, s.core.readMap, {Lookup(s.core, key)})))
    case Find(t) =>
      var c := s.threads[t].call;
      SetThread(s, t, s.threads[t].(call :=
        if c.key in c.inner then AtCell(c.key, c.id, c.inner[c.key], c.seen) else Missed(c.key, c.id, c.seen)))
    case LoadValue(t) =>
      var th := s.threads[t];
      var result := s.core.cells[th.call.cell];
      SetThread(s, t, th.(call := Returned(th.call.key, result, th.call.seen), held := th.held + Held(result)))
    case LookUnderLock(t) => DoLookUnderLock(s, t)
    case CreateOrGet(t, key, created) => DoCreateOrGet(s, t, key, created)
    case StoreValue(key, value) => DoStoreValue(s, key, value)
    case StampValue => WithCore(s, StampLastValue(s.core, s.clock)).(lock := Free)
    case StampMap => WithCore(s, StampLastMap(s.core, s.clock)).(lock := Free)
    case StampDelete(key, time) => s.(lock := Deleting(key, time))
    case ClearCell =>
      WithCore(s, Remove(s.core, s.lock.key, s.lock.time)).(
        lock := Free,
        unlinkedAt := s.unlinkedAt[Lookup(s.core, s.lock.key).value := s.clock])
    case ScanClock => s.(scan := ClockRead(s.clock))
    case ScanLock => s.(scan := Scanning(s.published.Keys, s.scan.min))
    case ScanThread(t) =>
      s.(scan := Scanning(s.scan.todo - {t},
                          if s.published[t].Some? then Min(s.scan.min, s.published[t].value) else s.scan.min))
    case ScanDone => s.(scan := NoScan, mins := s.mins + {s.scan.min})
    case TakeValue(min) => WithCore(s, PopValue(s.core)).(cut := Max(s.cut, min))
    case DropValue(value) => WithCore(s, Release(s.core, value))
    case TakeMap(min) => WithCore(s, PopMap(s.core)).(cut := Max(s.cut, min))
    case DropTombstone(id, key) => WithCore(s, FreeTombstone(s.core, id, key))
    case DropMap(id) => WithCore(s, FreeMap(s.core, id))
  }

  // ---------------------------------------------------------------------------------------------
  // The invariant
  // ---------------------------------------------------------------------------------------------

  ghost predicate ClockInv(s: State) {
    && s.slack <= s.clock
    && (forall m :: m in s.mins ==> s.slack <= m <= s.clock)
    && (s.scan.ClockRead? || s.scan.Scanning? ==> s.slack <= s.scan.min <= s.clock)
    && (forall t :: t in s.published && s.published[t].Some? ==> s.slack <= s.published[t].value)
    && (s.cut == 0 || s.cut in s.mins)
  }

  // What is unlinked is listed with a stamp not older than its unlinking by more than the slack, or
  // was unlinked before the time some MinTime returned.
  ghost predicate UnlinkInv(s: State) {
    && s.unlinkedAt.Keys == Stored(s.core) - s.core.linkedAs.Keys
    && (forall v :: v in s.unlinkedAt ==> s.unlinkedAt[v] <= s.clock)
    && (forall i :: 0 <= i < |s.core.deletedValues| ==>
          && s.core.deletedValues[i].value in s.unlinkedAt
          && s.unlinkedAt[s.core.deletedValues[i].value] <= s.core.deletedValues[i].time + s.slack)
    && (forall v :: v in s.core.gcValues || v in s.core.released ==>
          v in s.unlinkedAt && s.unlinkedAt[v] < s.cut)
  }

  ghost predicate MapUnlinkInv(s: State) {
    && |s.mapUnlinkedAt| == s.core.readId
    && 0 <= Oldest(s.core)
    && (forall id :: 0 <= id < |s.mapUnlinkedAt| ==> s.mapUnlinkedAt[id] <= s.clock)
    && (forall i :: 0 <= i < |s.core.deletedMaps| ==>
          s.mapUnlinkedAt[Oldest(s.core) + i] <= s.core.deletedMaps[i].time)
    && (forall id :: 0 <= id < Oldest(s.core) ==> s.mapUnlinkedAt[id] < s.cut)
  }

  ghost predicate LockInv(s: State) {
    match s.lock
    case Free => true
    case StampingValue => s.core.deletedValues != []
    case StampingMap => s.core.deletedMaps != []
    case Deleting(k, _) => k in s.core.dirtyMap
  }

  // No MinTime result, finished or in progress, can allow reclaiming what was unlinked at `u`
  // while thread t stays in its section.
  ghost predicate Protected(s: State, t: Tid, u: nat)
    requires t in s.threads
  {
    && s.threads[t].section.Inside?
    && s.threads[t].section.time <= u
    && (forall m :: m in s.mins ==> m <= u)
    && (s.scan.Scanning? ==> t in s.scan.todo || s.scan.min <= u)
  }

  // The cell a lookup of k takes from read map `id` is the cell the current read map has for k, or
  // was retired with a read map not older than `id` while the call was in progress.
  ghost predicate CellFrom(core: Core, k: Key, id: MapId, c: CellId, seen: set<Option<Ref>>) {
    if c in core.tombOf then core.tombOf[c] >= id && None in seen
    else k in core.readMap && core.readMap[k] == c
  }

  ghost predicate CallInv(s: State, t: Tid)
    requires t in s.threads
  {
    match s.threads[t].call
    case Idle => true
    case Loaded(k, id, m, seen) =>
      && Lookup(s.core, k) in seen
      && id <= s.core.readId && (id < |s.mapUnlinkedAt| ==> Protected(s, t, s.mapUnlinkedAt[id]))
      && (k in m ==> CellFrom(s.core, k, id, m[k], seen))
    case AtCell(k, id, c, seen) =>
      && Lookup(s.core, k) in seen
      && id <= s.core.readId && (id < |s.mapUnlinkedAt| ==> Protected(s, t, s.mapUnlinkedAt[id]))
      && CellFrom(s.core, k, id, c, seen)
    case Missed(k, id, seen) =>
      && Lookup(s.core, k) in seen
      && id <= s.core.readId && (id < |s.mapUnlinkedAt| ==> Protected(s, t, s.mapUnlinkedAt[id]))
    case Returned(k, result, seen) => result in seen
  }

  ghost predicate ThreadInv(s: State, t: Tid)
    requires t in s.threads
  {
    var th := s.threads[t];
    && (th.section.Inside? ==> t in s.published && s.published[t] == Some(th.section.time))
    && (!th.section.Outside? ==> s.slack <= th.section.time <= s.clock)
    && (!th.section.Inside? ==> th.call == Idle && th.held == {})
    && (forall v :: v in th.held && v in s.unlinkedAt ==> Protected(s, t, s.unlinkedAt[v]))
    && CallInv(s, t)
  }

  ghost predicate TimesInv(s: State) {
    && ClockInv(s) && UnlinkInv(s) && MapUnlinkInv(s) && LockInv(s)
    && (s.scan.Scanning? ==> s.scan.todo <= s.published.Keys)
  }

  ghost predicate ThreadsInv(s: State) {
    forall t {:trigger ThreadInv(s, t)} :: t in s.threads ==> ThreadInv(s, t)
  }

  ghost predicate MachineInv(s: State) {
    Inv(s.core) && TimesInv(s) && ThreadsInv(s)
  }

  ghost predicate Init(s: State) {
    && s.core == Empty()
    && s.lock == Free
    && s.slack <= s.clock
    && (forall t :: t in s.threads ==> s.threads[t] == Thread(Outside, Idle, {}))
    && s.published == map[] && s.scan == NoScan && s.mins == {}
    && s.unlinkedAt == map[] && s.mapUnlinkedAt == [] && s.cut == 0
  }

  // ---------------------------------------------------------------------------------------------
  // Steps of the writers and of the reclamation: what they do to every thread
  // ---------------------------------------------------------------------------------------------

  // A read map's cell stays the read map's cell, or is retired while its key is absent.
  ghost predicate Evolves(a: Core, b: Core) {
    && a.readId <= b.readId
    && (forall c :: c in a.tombOf ==> c in b.tombOf && b.tombOf[c] == a.tombOf[c])
    && (forall k :: k in a.readMap ==>
          var c := a.readMap[k];
          if c in b.tombOf then b.tombOf[c] >= a.readId && Lookup(a, k) == None
          else k in b.readMap && b.readMap[k] == c)
  }

  // What is unlinked in the step is unlinked now.
  ghost predicate UnlinksNow(s: State, u: State) {
    && (forall v :: v in u.unlinkedAt ==>
          u.unlinkedAt[v] == s.clock || (v in s.unlinkedAt && u.unlinkedAt[v] == s.unlinkedAt[v]))
    && |s.mapUnlinkedAt| <= |u.mapUnlinkedAt|
    && (forall id :: 0 <= id < |s.mapUnlinkedAt| ==> u.mapUnlinkedAt[id] == s.mapUnlinkedAt[id])
    && (forall id :: |s.mapUnlinkedAt| <= id < |u.mapUnlinkedAt| ==> u.mapUnlinkedAt[id] == s.clock)
  }

  // The step leaves the clock, the scan and the published times alone.
  ghost predicate KeepsTimes(s: State, u: State) {
    u.published == s.published && u.scan == s.scan && u.mins == s.mins && u.clock == s.clock && u.slack == s.slack
  }

  lemma CallSurvives(s: State, u: State, t: Tid)
    requires ClockInv(s) && |s.mapUnlinkedAt| == s.core.readId && t in s.threads && CallInv(s, t)
    requires s.threads[t].call.Idle? || (s.threads[t].section.Inside? && s.threads[t].section.time <= s.clock)
    requires t in u.threads && u.threads[t] == s.threads[t].(call := Saw(s.threads[t].call, u.core))
    requires KeepsTimes(s, u) && Evolves(s.core, u.core) && UnlinksNow(s, u)
    ensures CallInv(u, t)
  {
    assert forall x: nat :: Protected(s, t, x) ==> Protected(u, t, x);
    assert s.threads[t].section.Inside? && s.threads[t].section.time <= s.clock ==> Protected(u, t, s.clock);
  }

  lemma ThreadSurvives(s: State, u: State, t: Tid)
    requires ClockInv(s) && |s.mapUnlinkedAt| == s.core.readId && t in s.threads && ThreadInv(s, t)
    requires t in u.threads && u.threads[t] == s.threads[t].(call := Saw(s.threads[t].call, u.core))
    requires KeepsTimes(s, u) && Evolves(s.core, u.core) && UnlinksNow(s, u)
    ensures ThreadInv(u, t)
  {
    CallSurvives(s, u, t);
    assert forall x: nat :: Protected(s, t, x) ==> Protected(u, t, x);
    assert s.threads[t].section.Inside? ==> Protected(u, t, s.clock);
  }

  lemma ThreadsSurvive(s: State, u: State)
    requires TimesInv(s) && ThreadsInv(s)
    requires u.threads == Observe(s.threads, u.core)
    requires KeepsTimes(s, u) && Evolves(s.core, u.core) && UnlinksNow(s, u)
    ensures ThreadsInv(u)
  {
    forall t | t in u.threads ensures ThreadInv(u, t) {
      assert ThreadInv(s, t);
      ThreadSurvives(s, u, t);
    }
  }

  lemma MapsStay(s: State, u: State)
    requires MapUnlinkInv(s)
    requires u.core.readId == s.core.readId && u.core.deletedMaps == s.core.deletedMaps
    requires u.mapUnlinkedAt == s.mapUnlinkedAt && u.clock == s.clock && u.cut == s.cut
    ensures MapUnlinkInv(u)
  {
  }

  // The value lists after a step that links `joined` and unlinks `left`, listing each of `left`
  // with a stamp within the slack of now.
  lemma ValuesMove(s: State, u: State, joined: set<Ref>, left: set<Ref>, time: nat)
    requires UnlinkInv(s) && left <= s.core.linkedAs.Keys && joined !! Stored(s.core) && s.clock <= time + s.slack
    requires u.clock == s.clock && u.slack == s.slack && u.cut == s.cut
    requires u.core.gcValues == s.core.gcValues && u.core.released == s.core.released
    requires u.core.linkedAs.Keys == s.core.linkedAs.Keys - left + joined
    requires Stored(u.core) == Stored(s.core) + joined
    requires left == {} ==> u.unlinkedAt == s.unlinkedAt && u.core.deletedValues == s.core.deletedValues
    requires forall v :: left == {v} ==>
               && u.unlinkedAt == s.unlinkedAt[v := s.clock]
               && u.core.deletedValues == s.core.deletedValues + [RetiredValue(v, time)]
    requires left == {} || exists v :: left == {v}
    ensures UnlinkInv(u)
  {
    if v :| left == {v} {
      assert v in s.core.linkedAs && v in Stored(s.core) && v !in s.unlinkedAt;
    }
  }

  // A step on the core that leaves the clock, the scan and the published times alone.
  lemma CoreStep(s: State, u: State)
    requires TimesInv(s) && ThreadsInv(s)
    requires u == WithCore(s, u.core).(lock := u.lock, unlinkedAt := u.unlinkedAt,
                                       mapUnlinkedAt := u.mapUnlinkedAt, cut := u.cut)
    requires UnlinkInv(u) && MapUnlinkInv(u) && LockInv(u)
    requires u.cut == s.cut || u.cut in s.mins
    requires Evolves(s.core, u.core) && UnlinksNow(s, u)
    ensures TimesInv(u) && ThreadsInv(u)
  {
    ThreadsSurvive(s, u);
  }

  lemma ReplaceStep(s: State, u: State, key: Key, value: Ref)
    requires MachineInv(s) && s.lock.Free? && value !in Stored(s.core)
    requires key in s.core.dirtyMap && Lookup(s.core, key).Some?
    requires u == WithCore(s, Replace(s.core, key, value, s.clock)).(
                    lock := StampingValue, unlinkedAt := s.unlinkedAt[Lookup(s.core, key).value := s.clock])
    ensures MachineInv(u)
  {
    ReplaceKeeps(s.core, key, value, s.clock);
    ReplaceTimes(s, u, key, value);
  }

  lemma ReplaceTimes(s: State, u: State, key: Key, value: Ref)
    requires DirtyInv(s.core) && ReadInv(s.core) && LinkInv(s.core)
    requires TimesInv(s) && ThreadsInv(s) && s.lock.Free? && value !in Stored(s.core)
    requires key in s.core.dirtyMap && Lookup(s.core, key).Some?
    requires u == WithCore(s, Replace(s.core, key, value, s.clock)).(
                    lock := StampingValue, unlinkedAt := s.unlinkedAt[Lookup(s.core, key).value := s.clock])
    requires Stored(u.core) == Stored(s.core) + {value}
    ensures TimesInv(u) && ThreadsInv(u)
  {
    MapsStay(s, u);
    ValuesMove(s, u, {value}, {Lookup(s.core, key).value}, s.clock);
    CoreStep(s, u);
  }

  lemma InsertFrame(c: Core, key: Key, value: Ref)
    requires ReadInv(c) && key !in c.dirtyMap
    ensures var d := Insert(c, key, value);
      && Evolves(c, d)
      && d.readId == c.readId && d.deletedMaps == c.deletedMaps && d.deletedValues == c.deletedValues
      && d.gcValues == c.gcValues && d.released == c.released
      && d.linkedAs.Keys == c.linkedAs.Keys + {value}
  {
  }

  lemma InsertStep(s: State, u: State, key: Key, value: Ref)
    requires MachineInv(s) && s.lock.Free? && key !in s.core.dirtyMap && value !in Stored(s.core)
    requires u == WithCore(s, Insert(s.core, key, value))
    ensures MachineInv(u)
  {
    InsertKeeps(s.core, key, value);
    InsertFrame(s.core, key, value);
    InsertTimes(s, u, value);
  }

  lemma InsertTimes(s: State, u: State, value: Ref)
    requires TimesInv(s) && ThreadsInv(s) && s.lock.Free? && value !in Stored(s.core)
    requires u == WithCore(s, u.core) && Evolves(s.core, u.core)
    requires u.core.readId == s.core.readId && u.core.deletedMaps == s.core.deletedMaps
    requires u.core.deletedValues == s.core.deletedValues && u.core.gcValues == s.core.gcValues
    requires u.core.released == s.core.released && u.core.linkedAs.Keys == s.core.linkedAs.Keys + {value}
    requires Stored(u.core) == Stored(s.core) + {value}
    ensures TimesInv(u) && ThreadsInv(u)
  {
    MapsStay(s, u);
    ValuesMove(s, u, {value}, {}, s.clock);
    CoreStep(s, u);
  }

  lemma RemoveStep(s: State, u: State)
    requires MachineInv(s) && s.lock.Deleting? && s.clock <= s.lock.time + s.slack
    requires s.lock.key in s.core.dirtyMap && Lookup(s.core, s.lock.key).Some?
    requires u == WithCore(s, Remove(s.core, s.lock.key, s.lock.time)).(
                    lock := Free, unlinkedAt := s.unlinkedAt[Lookup(s.core, s.lock.key).value := s.clock])
    ensures MachineInv(u)
  {
    RemoveKeeps(s.core, s.lock.key, s.lock.time);
    RemoveTimes(s, u, s.lock.key, s.lock.time);
  }

  lemma RemoveTimes(s: State, u: State, key: Key, time: nat)
    requires DirtyInv(s.core) && ReadInv(s.core) && LinkInv(s.core)
    requires TimesInv(s) && ThreadsInv(s) && s.clock <= time + s.slack
    requires key in s.core.dirtyMap && Lookup(s.core, key).Some?
    requires u == WithCore(s, Remove(s.core, key, time)).(
                    lock := Free, unlinkedAt := s.unlinkedAt[Lookup(s.core, key).value := s.clock])
    requires Stored(u.core) == Stored(s.core)
    ensures TimesInv(u) && ThreadsInv(u)
  {
    MapsStay(s, u);
    ValuesMove(s, u, {}, {Lookup(s.core, key).value}, time);
    CoreStep(s, u);
  }

  // The stamping steps and the reclamation change lists only.
  lemma ListStep(s: State, u: State)
    requires MachineInv(s) && Inv(u.core)
    requires u == WithCore(s, u.core).(lock := u.lock, cut := u.cut)
    requires UnlinkInv(u) && MapUnlinkInv(u) && LockInv(u)
    requires u.cut == s.cut || u.cut in s.mins
    requires u.core.readId == s.core.readId && u.core.readMap == s.core.readMap && u.core.tombOf == s.core.tombOf
    ensures MachineInv(u)
  {
    CoreStep(s, u);
  }

  lemma StampLastValueKeeps(c: Core, now: nat)
    requires Inv(c) && c.deletedValues != []
    ensures var d := StampLastValue(c, now); Inv(d) && Stored(d) == Stored(c)
  {
    var d := StampLastValue(c, now);
    assert forall i :: 0 <= i < |c.deletedValues| ==> d.deletedValues[i].value == c.deletedValues[i].value;
    MemoryStays(c, d);
    LinksStay(c, d);
    forall x ensures x in Stored(d) <==> x in Stored(c) {
      if i :| 0 <= i < |c.deletedValues| && c.deletedValues[i].value == x {
        assert d.deletedValues[i].value == x;
      }
    }
  }

  lemma StampLastMapKeeps(c: Core, now: nat)
    requires Inv(c) && c.deletedMaps != []
    ensures var d := StampLastMap(c, now); Inv(d) && Stored(d) == Stored(c)
  {
    var d := StampLastMap(c, now);
    LinksStay(c, d);
    forall x | x in d.cells && x !in d.tombOf ensures Placed(d, x) {
      assert Placed(c, x);
    }
    forall x | x in d.tombOf ensures TombstoneKept(d, x) {
      assert TombstoneKept(c, x);
    }
  }

  lemma StampValueStep(s: State, u: State)
    requires MachineInv(s) && s.core.deletedValues != []
    requires u == WithCore(s, StampLastValue(s.core, s.clock)).(lock := Free)
    ensures MachineInv(u)
  {
    StampLastValueKeeps(s.core, s.clock);
    MapsStay(s, u);
    assert UnlinkInv(u);
    ListStep(s, u);
  }

  lemma StampMapStep(s: State, u: State)
    requires MachineInv(s) && s.core.deletedMaps != []
    requires u == WithCore(s, StampLastMap(s.core, s.clock)).(lock := Free)
    ensures MachineInv(u)
  {
    StampLastMapKeeps(s.core, s.clock);
    assert MapUnlinkInv(u) && UnlinkInv(u);
    ListStep(s, u);
  }

  // A value taken off the list was unlinked before the time MinTime returned.
  lemma TakeValueTimes(s: State, u: State, min: nat)
    requires UnlinkInv(s) && s.core.deletedValues != [] && s.core.deletedValues[0].time < min - s.slack
    requires u.core == PopValue(s.core) && Stored(u.core) == Stored(s.core) && u.cut == Max(s.cut, min)
    requires u.unlinkedAt == s.unlinkedAt && u.clock == s.clock && u.slack == s.slack
    ensures UnlinkInv(u)
  {
    assert forall i :: 0 <= i < |u.core.deletedValues| ==>
        u.core.deletedValues[i] == s.core.deletedValues[i + 1];
  }

  lemma TakeValueStep(s: State, u: State, min: nat)
    requires MachineInv(s) && s.lock.Free? && min in s.mins
    requires s.core.deletedValues != [] && s.core.deletedValues[0].time < min - s.slack
    requires u == WithCore(s, PopValue(s.core)).(cut := Max(s.cut, min))
    ensures MachineInv(u)
  {
    PopValueKeeps(s.core);
    TakeValueTimes(s, u, min);
    assert MapUnlinkInv(u);
    ListStep(s, u);
  }

  lemma DropValueStep(s: State, u: State, value: Ref)
    requires MachineInv(s) && value in s.core.gcValues && u == WithCore(s, Release(s.core, value))
    ensures MachineInv(u)
  {
    ReleaseKeeps(s.core, value);
    MapsStay(s, u);
    assert UnlinkInv(u);
    ListStep(s, u);
  }

  lemma TakeMapStep(s: State, u: State, min: nat)
    requires MachineInv(s) && s.lock.Free? && min in s.mins
    requires s.core.deletedMaps != [] && s.core.deletedMaps[0].time < min - s.slack
    requires u == WithCore(s, PopMap(s.core)).(cut := Max(s.cut, min))
    ensures MachineInv(u)
  {
    PopMapKeeps(s.core);
    assert forall i :: 0 <= i < |u.core.deletedMaps| ==> u.core.deletedMaps[i] == s.core.deletedMaps[i + 1];
    assert UnlinkInv(u) && MapUnlinkInv(u);
    ListStep(s, u);
  }

  lemma DropTombstoneStep(s: State, u: State, id: MapId, key: Key)
    requires MachineInv(s) && id in s.core.gcMaps && key in s.core.gcMaps[id].keys
    requires key in s.core.gcMaps[id].inner && u == WithCore(s, FreeTombstone(s.core, id, key))
    ensures MachineInv(u)
  {
    FreeTombstoneKeeps(s.core, id, key);
    MapsStay(s, u);
    assert UnlinkInv(u);
    ListStep(s, u);
  }

  lemma DropMapStep(s: State, u: State, id: MapId)
    requires MachineInv(s) && id in s.core.gcMaps && s.core.gcMaps[id].keys == {}
    requires u == WithCore(s, FreeMap(s.core, id))
    ensures MachineInv(u)
  {
    FreeMapKeeps(s.core, id);
    MapsStay(s, u);
    assert UnlinkInv(u);
    ListStep(s, u);
  }

  lemma CountMissKeeps(c: Core, d: Core)
    requires Inv(c) && d == c.(missTime := d.missTime)
    ensures Inv(d) && Stored(d) == Stored(c)
  {
    MemoryStays(c, d);
    LinksStay(c, d);
  }

  lemma CountStep(s: State, u: State, id: MapId)
    requires MachineInv(s) && u == WithCore(s, CountMiss(s.core, id))
    ensures MachineInv(u)
  {
    CountMissKeeps(s.core, u.core);
    MapsStay(s, u);
    assert UnlinkInv(u);
    ListStep(s, u);
  }

  lemma SwapEvolves(c: Core, d: Core, now: nat)
    requires DirtyInv(c) && ReadInv(c) && d == c.(missTime := d.missTime)
    ensures Evolves(c, Swap(d, now))
  {
  }

  lemma SwapLists(s: State, u: State)
    requires UnlinkInv(s) && MapUnlinkInv(s)
    requires u.core.readId == s.core.readId + 1
    requires u.core.deletedMaps ==
      s.core.deletedMaps + [RetiredMap(s.core.readId, s.core.readMap, s.core.deletedKeys, s.clock)]
    requires u.mapUnlinkedAt == s.mapUnlinkedAt + [s.clock]
    requires u.clock == s.clock && u.slack == s.slack && u.cut == s.cut && u.unlinkedAt == s.unlinkedAt
    requires u.core.deletedValues == s.core.deletedValues && u.core.linkedAs == s.core.linkedAs
    requires u.core.gcValues == s.core.gcValues && u.core.released == s.core.released
    requires Stored(u.core) == Stored(s.core)
    ensures UnlinkInv(u) && MapUnlinkInv(u)
  {
    assert forall i :: 0 <= i < |s.core.deletedMaps| ==> u.core.deletedMaps[i] == s.core.deletedMaps[i];
  }

  lemma UnlinksOneMap(s: State, u: State)
    requires u.unlinkedAt == s.unlinkedAt && u.mapUnlinkedAt == s.mapUnlinkedAt + [s.clock]
    ensures UnlinksNow(s, u)
  {
  }

  lemma SwapTimes(s: State, u: State)
    requires TimesInv(s) && ThreadsInv(s) && UnlinkInv(u) && MapUnlinkInv(u)
    requires u == WithCore(s, u.core).(lock := StampingMap, mapUnlinkedAt := s.mapUnlinkedAt + [s.clock])
    requires Evolves(s.core, u.core) && u.core.deletedMaps != []
    ensures TimesInv(u) && ThreadsInv(u)
  {
    UnlinksOneMap(s, u);
    CoreStep(s, u);
  }

  lemma SwapStep(s: State, u: State, id: MapId)
    requires MachineInv(s)
    requires u == WithCore(s, Swap(CountMiss(s.core, id), s.clock)).(
                    lock := StampingMap, mapUnlinkedAt := s.mapUnlinkedAt + [s.clock])
    ensures MachineInv(u)
  {
    var c := CountMiss(s.core, id);
    CountMissKeeps(s.core, c);
    SwapKeeps(c, s.clock);
    SwapEvolves(s.core, c, s.clock);
    SwapLists(s, u);
    SwapTimes(s, u);
  }

  // ---------------------------------------------------------------------------------------------
  // Steps of one thread
  // ---------------------------------------------------------------------------------------------

  lemma OtherThreads(s: State, u: State, t: Tid)
    requires ThreadsInv(s) && t in u.threads && ThreadInv(u, t)
    requires u == s.(threads := s.threads[t := u.threads[t]], published := u.published)
    requires forall x :: x != t ==> (x in u.published <==> x in s.published)
    requires forall x :: x != t && x in s.published ==> u.published[x] == s.published[x]
    ensures ThreadsInv(u)
  {
    forall x | x in u.threads ensures ThreadInv(u, x) {
      if x != t {
        assert ThreadInv(s, x);
        assert forall y: nat :: Protected(s, x, y) ==> Protected(u, x, y);
      }
    }
  }

  // The map a call has loaded is the read map or is still on the list of retired maps.
  lemma LoadedMapKept(s: State, t: Tid)
    requires TimesInv(s) && t in s.threads && ThreadInv(s, t)
    ensures var c := s.threads[t].call;
      c.Loaded? || c.AtCell? || c.Missed? ==> c.id >= Oldest(s.core)
  {
  }

  // The cell a call has found is allocated, and holds what the map held at some moment of the call.
  lemma FoundCellKept(s: State, t: Tid)
    requires Inv(s.core) && TimesInv(s) && t in s.threads && ThreadInv(s, t) && s.threads[t].call.AtCell?
    ensures s.threads[t].call.cell in s.core.cells
    ensures s.core.cells[s.threads[t].call.cell] in s.threads[t].call.seen
  {
    LoadedMapKept(s, t);
    var c := s.threads[t].call.cell;
    if c in s.core.tombOf {
      assert TombstoneKept(s.core, c);
    }
  }

  // What the abstract map holds is not unlinked.
  lemma LinkedNow(s: State, k: Key)
    requires LinkInv(s.core) && UnlinkInv(s)
    ensures Lookup(s.core, k).Some? ==> Lookup(s.core, k).value !in s.unlinkedAt
  {
  }

  // A cell that holds a reference is reached by the abstract map.
  lemma FoundValueLinked(s: State, t: Tid)
    requires Inv(s.core) && TimesInv(s) && t in s.threads && ThreadInv(s, t) && s.threads[t].call.AtCell?
    requires s.threads[t].call.cell in s.core.cells
    ensures var v := s.core.cells[s.threads[t].call.cell]; v.Some? ==> v.value !in s.unlinkedAt
  {
    LoadedMapKept(s, t);
    var c := s.threads[t].call.cell;
    if c in s.core.tombOf {
      assert TombstoneKept(s.core, c);
    } else {
      LinkedNow(s, s.threads[t].call.key);
    }
  }

  // Thread t's call returns a value that is linked now and was seen during the call.
  lemma ReturnStep(s: State, u: State, t: Tid, k: Key, result: Option<Ref>, seen: set<Option<Ref>>)
    requires MachineInv(s) && InCall(s, t) && result in seen
    requires result.Some? ==> result.value !in s.unlinkedAt
    requires u == SetThread(s, t, s.threads[t].(call := Returned(k, result, seen),
                                                held := s.threads[t].held + Held(result)))
    ensures MachineInv(u)
  {
    assert ThreadInv(s, t);
    assert forall y: nat :: Protected(s, t, y) ==> Protected(u, t, y);
    assert ThreadInv(u, t);
    OtherThreads(s, u, t);
    TimesStay(s, u);
  }

  lemma TimesStay(s: State, u: State)
    requires TimesInv(s) && u == s.(threads := u.threads)
    ensures TimesInv(u)
  {
    MapsStay(s, u);
  }

  lemma LoadMapStep(s: State, u: State, t: Tid, key: Key)
    requires MachineInv(s) && InCall(s, t)
    requires u == SetThread(s, t, s.threads[t].(call :=
                    Loaded(key, s.core.readId, s.core.readMap, {Lookup(s.core, key)})))
    ensures MachineInv(u)
  {
    assert ThreadInv(s, t);
    assert forall y: nat :: Protected(s, t, y) ==> Protected(u, t, y);
    assert ThreadInv(u, t);
    OtherThreads(s, u, t);
    TimesStay(s, u);
  }

  lemma FindStep(s: State, u: State, t: Tid)
    requires MachineInv(s) && InCall(s, t) && s.threads[t].call.Loaded?
    requires var c := s.threads[t].call;
      u == SetThread(s, t, s.threads[t].(call :=
        if c.key in c.inner then AtCell(c.key, c.id, c.inner[c.key], c.seen) else Missed(c.key, c.id, c.seen)))
    ensures MachineInv(u)
  {
    assert ThreadInv(s, t);
    assert forall y: nat :: Protected(s, t, y) ==> Protected(u, t, y);
    assert ThreadInv(u, t);
    OtherThreads(s, u, t);
    TimesStay(s, u);
  }

  lemma LoadValueStep(s: State, u: State, t: Tid)
    requires MachineInv(s) && InCall(s, t) && s.threads[t].call.AtCell? && s.threads[t].call.cell in s.core.cells
    requires var th := s.threads[t];
      var result := s.core.cells[th.call.cell];
      u == SetThread(s, t, th.(call := Returned(th.call.key, result, th.call.seen), held := th.held + Held(result)))
    ensures MachineInv(u)
  {
    assert ThreadInv(s, t);
    FoundCellKept(s, t);
    FoundValueLinked(s, t);
    ReturnStep(s, u, t, s.threads[t].call.key, s.core.cells[s.threads[t].call.cell], s.threads[t].call.seen);
  }

  lemma LookUnderLockStep(s: State, t: Tid)
    requires MachineInv(s) && Enabled(s, LookUnderLock(t))
    ensures MachineInv(DoLookUnderLock(s, t))
  {
    assert ThreadInv(s, t);
    var th := s.threads[t];
    var k := th.call.key;
    var result := Lookup(s.core, k);
    LinkedNow(s, k);
    var s1 := SetThread(s, t, th.(call := Returned(k, result, th.call.seen), held := th.held + Held(result)));
    ReturnStep(s, s1, t, k, result, th.call.seen);
    var u := DoLookUnderLock(s, t);
    if k in s.core.dirtyMap {
      if CountMiss(s.core, th.call.id).missTime < |s.core.dirtyMap| {
        CountStep(s1, u, th.call.id);
      } else {
        SwapStep(s1, u, th.call.id);
      }
    }
  }

  lemma CreateOrGetStep(s: State, t: Tid, key: Key, created: Option<Ref>)
    requires MachineInv(s) && Enabled(s, CreateOrGet(t, key, created))
    ensures MachineInv(DoCreateOrGet(s, t, key, created))
  {
    var th := s.threads[t];
    var was := Lookup(s.core, key);
    var u := DoCreateOrGet(s, t, key, created);
    LinkedNow(s, key);
    if key in s.core.dirtyMap {
      ReturnStep(s, u, t, key, was, {was});
    } else if created.None? {
      assert th.held + {} == th.held;
      ReturnStep(s, u, t, key, None, {was});
    } else {
      var s1 := SetThread(s, t, th.(call := Returned(key, created, {was, created}), held := th.held + Held(created)));
      ReturnStep(s, s1, t, key, created, {was, created});
      InsertStep(s1, u, key, created.value);
    }
  }

  // RcuEnter, RcuExit, thread exit.
  lemma SectionStep(s: State, u: State, t: Tid)
    requires MachineInv(s) && t in s.threads
    requires t in u.threads && u.threads[t].call.Idle? && u.threads[t].held == {}
    requires u == s.(threads := s.threads[t := u.threads[t]], published := u.published)
    requires u.threads[t].section.Inside? ==>
               t in u.published && u.published[t] == Some(u.threads[t].section.time)
    requires !u.threads[t].section.Outside? ==> s.slack <= u.threads[t].section.time <= s.clock
    requires forall x :: x != t ==> (x in u.published <==> x in s.published)
    requires forall x :: x != t && x in s.published ==> u.published[x] == s.published[x]
    requires t in u.published && u.published[t].Some? ==> s.slack <= u.published[t].value
    requires s.scan.Scanning? ==> (t in s.published ==> t in u.published)
    ensures MachineInv(u)
  {
    assert ThreadInv(u, t);
    OtherThreads(s, u, t);
    MapsStay(s, u);
  }

  // ---------------------------------------------------------------------------------------------
  // The clock and MinTime
  // ---------------------------------------------------------------------------------------------

  lemma TickStep(s: State, u: State)
    requires MachineInv(s) && s.clock <= u.clock && u == s.(clock := u.clock)
    ensures MachineInv(u)
  {
    forall t | t in u.threads ensures ThreadInv(u, t) {
      assert ThreadInv(s, t);
      assert forall y: nat :: Protected(s, t, y) ==> Protected(u, t, y);
    }
  }

  // Whatever a thread protects stays protected when the scan takes a step.
  lemma ScanKeepsThreads(s: State, u: State)
    requires ThreadsInv(s) && u == s.(scan := u.scan, mins := u.mins)
    requires forall t, y: nat :: t in s.threads && ThreadInv(s, t) && Protected(s, t, y) ==> Protected(u, t, y)
    ensures ThreadsInv(u)
  {
    forall t | t in u.threads ensures ThreadInv(u, t) {
      assert ThreadInv(s, t);
    }
  }

  lemma ScanStep(s: State, u: State)
    requires MachineInv(s) && u == s.(scan := u.scan)
    requires
      || (s.scan.NoScan? && u.scan == ClockRead(s.clock))
      || (s.scan.ClockRead? && u.scan == Scanning(s.published.Keys, s.scan.min))
      || (s.scan.Scanning? && exists t :: t in s.scan.todo && t in s.published && u.scan == Scanning(s.scan.todo - {t},
            if s.published[t].Some? then Min(s.scan.min, s.published[t].value) else s.scan.min))
    ensures MachineInv(u)
  {
    MapsStay(s, u);
    ScanKeepsThreads(s, u);
  }

  lemma ScanDoneStep(s: State, u: State)
    requires MachineInv(s) && s.scan.Scanning? && s.scan.todo == {}
    requires u == s.(scan := NoScan, mins := s.mins + {s.scan.min})
    ensures MachineInv(u)
  {
    MapsStay(s, u);
    ScanKeepsThreads(s, u);
  }

  lemma DeleteStampStep(s: State, u: State)
    requires MachineInv(s) && u == s.(lock := u.lock) && u.lock.Deleting? && u.lock.key in s.core.dirtyMap
    ensures MachineInv(u)
  {
    MapsStay(s, u);
    forall t | t in u.threads ensures ThreadInv(u, t) {
      assert ThreadInv(s, t);
      assert forall y: nat :: Protected(s, t, y) ==> Protected(u, t, y);
    }
  }

  // ---------------------------------------------------------------------------------------------
  // Theorems over every run
  // ---------------------------------------------------------------------------------------------

  lemma WriterKeeps(s: State, step: Step)
    requires MachineInv(s) && Enabled(s, step)
    requires step.StoreValue? || step.StampValue? || step.StampMap? || step.StampDelete? || step.ClearCell?
    ensures MachineInv(Apply(s, step))
  {
    var u := Apply(s, step);
    match step {
      case StoreValue(key, value) =>
        if key in s.core.dirtyMap {
          ReplaceStep(s, u, key, value);
        } else {
          InsertStep(s, u, key, value);
        }
      case StampValue => StampValueStep(s, u);
      case StampMap => StampMapStep(s, u);
      case StampDelete(_, _) => DeleteStampStep(s, u);
      case ClearCell => RemoveStep(s, u);
    }
  }

  lemma ReaderKeeps(s: State, step: Step)
    requires MachineInv(s) && Enabled(s, step)
    requires step.LoadMap? || step.Find? || step.LoadValue? || step.LookUnderLock? || step.CreateOrGet?
    ensures MachineInv(Apply(s, step))
  {
    var u := Apply(s, step);
    match step {
      case LoadMap(t, key) => LoadMapStep(s, u, t, key);
      case Find(t) => FindStep(s, u, t);
      case LoadValue(t) => LoadValueStep(s, u, t);
      case LookUnderLock(t) => LookUnderLockStep(s, t);
      case CreateOrGet(t, key, created) => CreateOrGetStep(s, t, key, created);
    }
  }

  lemma SectionKeeps(s: State, step: Step)
    requires MachineInv(s) && Enabled(s, step)
    requires step.ReadClock? || step.Publish? || step.Leave? || step.ExitThread?
    ensures MachineInv(Apply(s, step))
  {
    assert ThreadInv(s, step.t);
    SectionStep(s, Apply(s, step), step.t);
  }

  lemma ReclaimKeeps(s: State, step: Step)
    requires MachineInv(s) && Enabled(s, step)
    requires step.TakeValue? || step.DropValue? || step.TakeMap? || step.DropTombstone? || step.DropMap?
    ensures MachineInv(Apply(s, step))
  {
    var u := Apply(s, step);
    match step {
      case TakeValue(min) => TakeValueStep(s, u, min);
      case DropValue(value) => DropValueStep(s, u, value);
      case TakeMap(min) => TakeMapStep(s, u, min);
      case DropTombstone(id, key) => DropTombstoneStep(s, u, id, key);
      case DropMap(id) => DropMapStep(s, u, id);
    }
  }

  lemma StepKeeps(s: State, step: Step)
    requires MachineInv(s) && Enabled(s, step)
    ensures MachineInv(Apply(s, step))
  {
    if step.Tick? {
      TickStep(s, Apply(s, step));
    } else if step.ScanDone? {
      ScanDoneStep(s, Apply(s, step));
    } else if step.ScanClock? || step.ScanLock? || step.ScanThread? {
      ScanStep(s, Apply(s, step));
    } else if step.ReadClock? || step.Publish? || step.Leave? || step.ExitThread? {
      SectionKeeps(s, step);
    } else if step.TakeValue? || step.DropValue? || step.TakeMap? || step.DropTombstone? || step.DropMap? {
      ReclaimKeeps(s, step);
    } else if step.StoreValue? || step.StampValue? || step.StampMap? || step.StampDelete? || step.ClearCell? {
      WriterKeeps(s, step);
    } else {
      ReaderKeeps(s, step);
    }
  }

  // The steps can be taken one after the other from s.
  ghost predicate Runs(s: State, steps: seq<Step>)
    decreases |steps|
  {
    steps == [] || (Enabled(s, steps[0]) && Runs(Apply(s, steps[0]), steps[1..]))
  }

  ghost function After(s: State, steps: seq<Step>): State
    requires Runs(s, steps)
    decreases |steps|
  {
    if steps == [] then s else After(Apply(s, steps[0]), steps[1..])
  }

  lemma {:induction false} RunKeeps(s: State, steps: seq<Step>)
    requires MachineInv(s) && Runs(s, steps)
    ensures MachineInv(After(s, steps))
    decreases |steps|
  {
    if steps != [] {
      StepKeeps(s, steps[0]);
      RunKeeps(Apply(s, steps[0]), steps[1..]);
    }
  }

  lemma InitKeeps(s: State)
    requires Init(s)
    ensures MachineInv(s)
  {
    forall t | t in s.threads ensures ThreadInv(s, t) {
    }
  }

  // A read map is freed once it is neither the read map, nor listed, nor waiting to be freed.
  ghost predicate MapFreed(s: State, id: MapId) {
    id < Oldest(s.core) && id !in s.core.gcMaps
  }

  // Grace-period safety: in every state of every run, no thread inside a section holds a reference
  // that was released or taken for release, no lookup is on a freed cell, and none is on a freed map.
  lemma NoUseAfterFree(init: State, steps: seq<Step>, t: Tid)
    requires Init(init) && Runs(init, steps) && t in After(init, steps).threads
    ensures var s := After(init, steps);
      var th := s.threads[t];
      && th.held !! s.core.released && th.held !! s.core.gcValues
      && (th.call.Loaded? || th.call.AtCell? || th.call.Missed? ==> !MapFreed(s, th.call.id))
      && (th.call.AtCell? ==> th.call.cell in s.core.cells)
      && (th.call.Loaded? && th.call.key in th.call.inner ==> th.call.inner[th.call.key] in s.core.cells)
  {
    var s := After(init, steps);
    InitKeeps(init);
    RunKeeps(init, steps);
    assert ThreadInv(s, t);
    LoadedMapKept(s, t);
    var th := s.threads[t];
    if th.call.AtCell? {
      FoundCellKept(s, t);
    }
    if th.call.Loaded? && th.call.key in th.call.inner {
      var c := th.call.inner[th.call.key];
      if c in s.core.tombOf {
        assert TombstoneKept(s.core, c);
      }
    }
  }

  // What the abstract map held for k in the states the run goes through, s included.
  ghost function Moments(s: State, steps: seq<Step>, k: Key): set<Option<Ref>>
    requires Runs(s, steps)
    decreases |steps|
  {
    {Lookup(s.core, k)} + (if steps == [] then {} else Moments(Apply(s, steps[0]), steps[1..], k))
  }

  // The step starts another call of thread t, or ends its section.
  predicate EndsCall(step: Step, t: Tid) {
    step == Leave(t) || (step.LoadMap? && step.t == t) || (step.CreateOrGet? && step.t == t)
  }

  function SeenBy(c: Call): set<Option<Ref>> {
    if c.Idle? then {} else c.seen
  }

  // The call of thread t goes on from s to u, seeing at most what the abstract map holds in u.
  ghost predicate GoesOn(s: State, u: State, t: Tid) {
    t in s.threads && !s.threads[t].call.Idle? ==>
      && t in u.threads && !u.threads[t].call.Idle?
      && u.threads[t].call.key == s.threads[t].call.key
      && SeenBy(u.threads[t].call) <= SeenBy(s.threads[t].call) + {Lookup(u.core, s.threads[t].call.key)}
  }

  lemma ObserveGoesOn(s: State, s1: State, u: State, t: Tid)
    requires t in s.threads && t in s1.threads && !s1.threads[t].call.Idle?
    requires !s.threads[t].call.Idle? && s1.threads[t].call.key == s.threads[t].call.key
    requires SeenBy(s1.threads[t].call) <= SeenBy(s.threads[t].call)
    requires u.threads == Observe(s1.threads, u.core)
    ensures GoesOn(s, u, t)
  {
  }

  lemma LookUnderLockGoesOn(s: State, x: Tid, t: Tid)
    requires Enabled(s, LookUnderLock(x)) && t in s.threads && !s.threads[t].call.Idle?
    ensures GoesOn(s, DoLookUnderLock(s, x), t)
  {
    var th := s.threads[x];
    var k := th.call.key;
    var result := Lookup(s.core, k);
    var s1 := SetThread(s, x, th.(call := Returned(k, result, th.call.seen), held := th.held + Held(result)));
    if k in s.core.dirtyMap {
      ObserveGoesOn(s, s1, DoLookUnderLock(s, x), t);
    }
  }

  lemma CreateOrGetGoesOn(s: State, x: Tid, key: Key, created: Option<Ref>, t: Tid)
    requires Enabled(s, CreateOrGet(x, key, created)) && x != t && t in s.threads && !s.threads[t].call.Idle?
    ensures GoesOn(s, DoCreateOrGet(s, x, key, created), t)
  {
    if key !in s.core.dirtyMap && created.Some? {
      var th := s.threads[x];
      var was := Lookup(s.core, key);
      var s1 := SetThread(s, x, th.(call := Returned(key, created, {was, created}), held := th.held + Held(created)));
      ObserveGoesOn(s, s1, DoCreateOrGet(s, x, key, created), t);
    }
  }

  lemma WriterGoesOn(s: State, step: Step, t: Tid)
    requires Enabled(s, step) && t in s.threads && !s.threads[t].call.Idle?
    requires Writes(step)
    ensures GoesOn(s, Apply(s, step), t)
    ensures t in Apply(s, step).threads && Apply(s, step).threads[t].section == s.threads[t].section
  {
    ObserveGoesOn(s, s, Apply(s, step), t);
  }

  predicate Writes(step: Step) {
    step.StoreValue? || step.StampValue? || step.StampMap? || step.ClearCell? || step.TakeValue?
    || step.DropValue? || step.TakeMap? || step.DropTombstone? || step.DropMap?
  }

  lemma QuietGoesOn(s: State, step: Step, t: Tid)
    requires Enabled(s, step) && !EndsCall(step, t) && t in s.threads && !s.threads[t].call.Idle?
    requires s.threads[t].section.Inside? && !Writes(step) && !step.LookUnderLock? && !step.CreateOrGet?
    ensures GoesOn(s, Apply(s, step), t) && Apply(s, step).threads[t].section.Inside?
  {
  }

  // A step adds to what a call has seen only what the abstract map holds after the step.
  lemma SeenGrows(s: State, step: Step, t: Tid)
    requires Enabled(s, step) && !EndsCall(step, t) && t in s.threads && !s.threads[t].call.Idle?
    requires s.threads[t].section.Inside?
    ensures GoesOn(s, Apply(s, step), t) && Apply(s, step).threads[t].section.Inside?
  {
    if Writes(step) {
      WriterGoesOn(s, step, t);
    } else if step.LookUnderLock? {
      LookUnderLockGoesOn(s, step.t, t);
    } else if step.CreateOrGet? {
      CreateOrGetGoesOn(s, step.t, step.key, step.created, t);
    } else {
      QuietGoesOn(s, step, t);
    }
  }

  lemma {:induction false} SeenWithinMoments(s: State, steps: seq<Step>, t: Tid, k: Key)
    requires Runs(s, steps) && (forall i :: 0 <= i < |steps| ==> !EndsCall(steps[i], t))
    requires t in s.threads && !s.threads[t].call.Idle? && s.threads[t].call.key == k
    requires s.threads[t].section.Inside?
    ensures var u := After(s, steps);
      && t in u.threads && !u.threads[t].call.Idle? && u.threads[t].call.key == k
      && SeenBy(u.threads[t].call) <= SeenBy(s.threads[t].call) + Moments(s, steps, k)
    decreases |steps|
  {
    if steps != [] {
      SeenGrows(s, steps[0], t);
      SeenWithinMoments(Apply(s, steps[0]), steps[1..], t, k);
    }
  }

  lemma CallLinearizable(started: State, t: Tid, k: Key, during: seq<Step>)
    requires MachineInv(started) && Runs(started, during)
    requires InCall(started, t) && started.threads[t].call.Loaded? && started.threads[t].call.key == k
    requires started.threads[t].call.seen == {Lookup(started.core, k)}
    requires forall i :: 0 <= i < |during| ==> !EndsCall(during[i], t)
    ensures var done := After(started, during);
      t in done.threads && (done.threads[t].call.Returned? ==>
        done.threads[t].call.key == k && done.threads[t].call.result in Moments(started, during, k))
  {
    RunKeeps(started, during);
    SeenWithinMoments(started, during, t, k);
    var done := After(started, during);
    assert ThreadInv(done, t);
    assert Lookup(started.core, k) in Moments(started, during, k);
  }

  // Linearizability: take any run, a lookup of k that thread t starts at some point of it, and any
  // further steps of all threads during which that call returns.  The result is what the abstract
  // map held for k in one of the states between the start of the call and its return.
  lemma LookupLinearizable(init: State, before: seq<Step>, t: Tid, k: Key, during: seq<Step>)
    requires Init(init) && Runs(init, before)
    requires Enabled(After(init, before), LoadMap(t, k))
    requires Runs(Apply(After(init, before), LoadMap(t, k)), during)
    requires forall i :: 0 <= i < |during| ==> !EndsCall(during[i], t)
    ensures var started := Apply(After(init, before), LoadMap(t, k));
      var done := After(started, during);
      t in done.threads && (done.threads[t].call.Returned? ==>
        done.threads[t].call.key == k && done.threads[t].call.result in Moments(started, during, k))
  {
    var now := After(init, before);
    assert MachineInv(now) by {
      InitKeeps(init);
      RunKeeps(init, before);
    }
    StepKeeps(now, LoadMap(t, k));
    CallLinearizable(Apply(now, LoadMap(t, k)), t, k, during);
  }

  // Ownership in every state of every run: allocated cells and stored references are partitioned,
  // so nothing is freed twice and nothing leaks.
  lemma OwnershipAlways(init: State, steps: seq<Step>)
    requires Init(init) && Runs(init, steps)
    ensures var c := After(init, steps).core;
      && c.cells.Keys == DirtyCells(c) + TombstoneCells(c) + RetiredCells(c)
      && DirtyCells(c) !! TombstoneCells(c) !! RetiredCells(c)
      && c.deletedKeys == c.readMap.Keys - c.dirtyMap.Keys
      && c.linkedAs.Keys !! c.gcValues !! c.released
      && (forall i :: 0 <= i < |c.deletedValues| ==> c.deletedValues[i].value !in c.linkedAs.Keys + c.gcValues + c.released)
      && (forall i, j :: 0 <= i < j < |c.deletedValues| ==> c.deletedValues[i].value != c.deletedValues[j].value)
  {
    InitKeeps(init);
    RunKeeps(init, steps);
    CellOwnership(After(init, steps).core);
  }

  // The subtraction in ClearCache never wraps: every MinTime result is at least the slack.
  lemma GraceTimeDoesNotWrap(init: State, steps: seq<Step>, m: nat)
    requires Init(init) && Runs(init, steps) && m in After(init, steps).mins
    ensures After(init, steps).slack <= m <= After(init, steps).clock
  {
    InitKeeps(init);
    RunKeeps(init, steps);
  }
}
