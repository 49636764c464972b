// Timeout watchers (polaris/cache/watcher.cpp and the watcher index in
// polaris/cache/cache_manager.cpp): a callback waits for up to three pieces of service data or for a
// timer.  Everything here runs on the reactor thread, one event after another.
module Watchers {
  import opened Common

  type Service(==, !new)

  datatype DataType = Instances | RouteRule | OtherData

  // The bits of wait_data_flag.
  datatype Wait = DstInstances | DstRoute | SrcRoute

  datatype Outcome = Ready | TimedOut

  datatype IndexKey = IndexKey(service: Service, dataType: DataType)

  type Index = map<IndexKey, set<nat>>

  // refs is the reference count, 0 once the watcher is freed; armed says that its timer is set; log
  // lists the callbacks made.  The source service is None if it is absent or has no name.
  datatype Watcher = Watcher(
    dst: Service,
    src: Option<Service>,
    awaited: set<Wait>,
    waits: set<Wait>,
    refs: int,
    armed: bool,
    log: seq<Outcome>)

  function KeyOf(w: Watcher, wait: Wait): IndexKey
    requires wait == SrcRoute ==> w.src.Some?
  {
    match wait
    case DstInstances => IndexKey(w.dst, Instances)
    case DstRoute => IndexKey(w.dst, RouteRule)
    case SrcRoute => IndexKey(w.src.value, RouteRule)
  }

  // The bit that a change stands for, as NotifyReady tells them apart.
  function WaitFor(w: Watcher, key: IndexKey): Wait {
    if key.dataType == Instances then DstInstances
    else if key.service == w.dst then DstRoute
    else SrcRoute
  }

  predicate Holds(index: Index, key: IndexKey, id: nat) {
    key in index && id in index[key]
  }

  function Awaited(src: Option<Service>, routerEnable: bool): set<Wait> {
    if !routerEnable then {DstInstances}
    else if src.None? then {DstInstances} + {DstRoute}
    else {DstInstances} + {DstRoute} + {SrcRoute}
  }

  predicate Proper(w: Watcher) {
    (SrcRoute in w.awaited ==> w.src.Some?) && w.waits <= w.awaited
  }

  // The watcher waits for the rules of one service both as its source and as its destination.
  predicate WaitsTwice(w: Watcher) {
    SrcRoute in w.awaited && w.src == Some(w.dst)
  }

  // The keys a watcher waits under.
  predicate Entry(w: Watcher, key: IndexKey)
    requires Proper(w)
  {
    WaitFor(w, key) in w.waits && KeyOf(w, WaitFor(w, key)) == key
  }

  // The bit that no change stands for is never cleared.
  predicate BitStays(w: Watcher) {
    WaitsTwice(w) ==> SrcRoute in w.waits
  }

  ghost predicate Indexed(index: Index, id: nat, w: Watcher)
    requires Proper(w)
  {
    forall key {:trigger Entry(w, key)} {:trigger Holds(index, key, id)} :: Holds(index, key, id) <==> Entry(w, key)
  }

  ghost predicate WatcherInv(index: Index, id: nat, w: Watcher) {
    && Proper(w)
    && if w.log == [] then
         w.armed && w.refs == |w.waits| && w.waits != {} && BitStays(w) && Indexed(index, id, w)
       else
         |w.log| == 1 && !w.armed && w.refs == 0 && forall key :: !Holds(index, key, id)
  }

  ghost predicate Inv(watchers: seq<Watcher>, index: Index) {
    && (forall id :: 0 <= id < |watchers| ==> WatcherInv(index, id, watchers[id]))
    && (forall key, id: nat :: Holds(index, key, id) ==> id < |watchers|)
  }

  // NotifyReady followed by the release of the index's reference.
  function Notified(w: Watcher, key: IndexKey): Watcher {
    var v := w.(waits := w.waits - {WaitFor(w, key)}, refs := w.refs - 1);
    if v.waits == {} then v.(armed := false, log := v.log + [Ready]) else v
  }

  function Expired(w: Watcher): Watcher {
    w.(armed := false, refs := w.refs - |w.waits|, log := w.log + [TimedOut])
  }

  // The bits that have an index entry of their own.
  function OwnBits(w: Watcher): set<Wait> {
    if WaitsTwice(w) then w.waits - {SrcRoute} else w.waits
  }

  // The reference count is the number of bits waited for, which is the number of index sets that hold
  // the watcher, and one more if it waits for one set twice.
  lemma ReferencesCounted(watchers: seq<Watcher>, index: Index, id: nat)
    requires Inv(watchers, index) && id < |watchers|
    ensures watchers[id].log == [] ==> watchers[id].refs == |watchers[id].waits|
    ensures var w := watchers[id];
      w.refs == |set key | key in index && id in index[key]| + if w.log == [] && WaitsTwice(w) then 1 else 0
  {
    var w := watchers[id];
    assert WatcherInv(index, id, w);
    var held := set key | key in index && id in index[key];
    if w.log == [] {
      HeldUnderBits(index, id, w);
      ImageSize(w, OwnBits(w));
      RemoveBit(w.waits, SrcRoute);
    } else {
      assert held == {} by {
        if key :| key in held {
          assert Holds(index, key, id);
        }
      }
    }
  }

  lemma HeldUnderBits(index: Index, id: nat, w: Watcher)
    requires Proper(w) && Indexed(index, id, w)
    ensures (set key | key in index && id in index[key]) == set wait | wait in OwnBits(w) :: KeyOf(w, wait)
  {
    var held := set key | key in index && id in index[key];
    var keys := set wait | wait in OwnBits(w) :: KeyOf(w, wait);
    forall key | key in held
      ensures key in keys
    {
      assert Holds(index, key, id);
      assert WaitFor(w, key) in OwnBits(w);
    }
    forall key | key in keys
      ensures key in held
    {
      var wait :| wait in OwnBits(w) && KeyOf(w, wait) == key;
      assert Entry(w, key);
      assert Holds(index, key, id);
    }
  }

  lemma {:induction false} ImageSize(w: Watcher, waits: set<Wait>)
    requires Proper(w) && waits <= w.awaited && (WaitsTwice(w) ==> SrcRoute !in waits)
    ensures |set wait | wait in waits :: KeyOf(w, wait)| == |waits|
    decreases |waits|
  {
    var image := set wait | wait in waits :: KeyOf(w, wait);
    if waits == {} {
      assert image == {};
    } else {
      var one :| one in waits;
      ImageSize(w, waits - {one});
      var rest := set wait | wait in waits - {one} :: KeyOf(w, wait);
      assert image == rest + {KeyOf(w, one)};
    }
  }

  function Filed(index: Index, key: IndexKey, id: nat): Index {
    index[key := (if key in index then index[key] else {}) + {id}]
  }

  function Unfiled(index: Index, key: IndexKey, id: nat): Index {
    index[key := (if key in index then index[key] else {}) - {id}]
  }

  // A new watcher: one whose data is there already is called back at once and freed.
  function Registered(dst: Service, src: Option<Service>, routerEnable: bool, ready: bool): Watcher {
    var awaited := if ready then {} else Awaited(src, routerEnable);
    Watcher(dst, src, awaited, awaited, |awaited|, !ready, if ready then [Ready] else [])
  }

  function FiledAll(index: Index, w: Watcher, id: nat): Index
    requires Proper(w)
  {
    var a := if DstInstances in w.waits then Filed(index, KeyOf(w, DstInstances), id) else index;
    var b := if DstRoute in w.waits then Filed(a, KeyOf(w, DstRoute), id) else a;
    if SrcRoute in w.waits then Filed(b, KeyOf(w, SrcRoute), id) else b
  }

  function UnfiledAll(index: Index, w: Watcher, id: nat): Index
    requires Proper(w)
  {
    var a := if DstInstances in w.waits then Unfiled(index, KeyOf(w, DstInstances), id) else index;
    var b := if DstRoute in w.waits then Unfiled(a, KeyOf(w, DstRoute), id) else a;
    if SrcRoute in w.waits then Unfiled(b, KeyOf(w, SrcRoute), id) else b
  }

  function ChangedAll(watchers: seq<Watcher>, index: Index, key: IndexKey): seq<Watcher> {
    seq(|watchers|, id requires 0 <= id < |watchers| =>
      if Holds(index, key, id) then Notified(watchers[id], key) else watchers[id])
  }

  lemma FiledAllHolds(index: Index, w: Watcher, id: nat, key: IndexKey, i: nat)
    requires Proper(w) && (SrcRoute in w.waits ==> DstRoute in w.waits)
    ensures Holds(FiledAll(index, w, id), key, i) <==> Holds(index, key, i) || (i == id && Entry(w, key))
  {
  }

  lemma UnfiledAllHolds(index: Index, w: Watcher, id: nat, key: IndexKey, i: nat)
    requires Proper(w) && Indexed(index, id, w)
    ensures Holds(UnfiledAll(index, w, id), key, i) <==> Holds(index, key, i) && i != id
  {
    assert Holds(index, key, id) <==> Entry(w, key);
  }

  // Filing or removing one watcher leaves the others where they were.
  lemma OthersStay(watchers: seq<Watcher>, index: Index, index': Index, id: nat)
    requires Inv(watchers, index)
    requires forall key, i: nat {:trigger Holds(index', key, i)} :: i != id ==> (Holds(index', key, i) <==> Holds(index, key, i))
    ensures forall i :: 0 <= i < |watchers| && i != id ==> WatcherInv(index', i, watchers[i])
    ensures forall key, i: nat :: Holds(index', key, i) && i != id ==> i < |watchers|
  {
    forall i | 0 <= i < |watchers| && i != id
      ensures WatcherInv(index', i, watchers[i])
    {
      assert WatcherInv(index, i, watchers[i]);
      assert forall key {:trigger Holds(index', key, i)} :: Holds(index', key, i) <==> Holds(index, key, i);
    }
  }

  lemma RegisterKeeps(watchers: seq<Watcher>, index: Index, w: Watcher)
    requires Inv(watchers, index) && Proper(w) && (SrcRoute in w.waits ==> DstRoute in w.waits)
    requires if w.log == [] then w.armed && w.refs == |w.waits| && w.waits != {} && BitStays(w)
             else |w.log| == 1 && !w.armed && w.refs == 0 && w.waits == {}
    ensures Inv(watchers + [w], FiledAll(index, w, |watchers|))
  {
    var id := |watchers|;
    var filed := FiledAll(index, w, id);
    forall key, i: nat
      ensures Holds(filed, key, i) <==> Holds(index, key, i) || (i == id && Entry(w, key))
    {
      FiledAllHolds(index, w, id, key, i);
    }
    OthersStay(watchers, index, filed, id);
    assert WatcherInv(filed, id, w);
  }

  lemma ChangeKeeps(watchers: seq<Watcher>, index: Index, key: IndexKey)
    requires Inv(watchers, index)
    ensures Inv(ChangedAll(watchers, index, key), index - {key})
  {
    var after, left := ChangedAll(watchers, index, key), index - {key};
    forall id | 0 <= id < |after|
      ensures WatcherInv(left, id, after[id])
    {
      assert WatcherInv(index, id, watchers[id]);
      ChangedWatcher(index, id, watchers[id], key);
    }
    assert forall k, id: nat :: Holds(left, k, id) ==> Holds(index, k, id);
  }

  lemma ChangedWatcher(index: Index, id: nat, w: Watcher, key: IndexKey)
    requires WatcherInv(index, id, w)
    ensures WatcherInv(index - {key}, id, if Holds(index, key, id) then Notified(w, key) else w)
  {
    var left := index - {key};
    assert forall k :: Holds(left, k, id) <==> Holds(index, k, id) && k != key;
    if Holds(index, key, id) {
      var v := Notified(w, key);
      assert Entry(w, key) && |v.waits| == |w.waits| - 1;
      forall k
        ensures Holds(left, k, id) <==> Entry(v, k)
      {
        assert Holds(index, k, id) <==> Entry(w, k);
      }
    } else if w.log == [] {
      assert !Entry(w, key);
    }
  }

  lemma TimeoutKeeps(watchers: seq<Watcher>, index: Index, id: nat)
    requires Inv(watchers, index) && id < |watchers| && watchers[id].armed
    ensures Proper(watchers[id])
    ensures Inv(watchers[id := Expired(watchers[id])], UnfiledAll(index, watchers[id], id))
  {
    var w := watchers[id];
    assert WatcherInv(index, id, w);
    var left := UnfiledAll(index, w, id);
    forall key, i: nat
      ensures Holds(left, key, i) <==> Holds(index, key, i) && i != id
    {
      UnfiledAllHolds(index, w, id, key, i);
    }
    OthersStay(watchers, index, left, id);
    assert WatcherInv(left, id, Expired(w));
  }

  class CacheManager {
    var watchers: seq<Watcher>    // every watcher ever registered, by number
    var index: Index              // service_watchers_

    ghost predicate Valid()
      reads this
    {
      Inv(watchers, index)
    }

    constructor ()
      ensures Valid() && watchers == [] && index == map[]
    {
      watchers, index := [], map[];
    }

    method AddTimeoutWatcher(dst: Service, src: Option<Service>, routerEnable: bool, ready: bool)
      requires Valid()
      modifies this
      ensures Valid() && watchers == old(watchers) + [Registered(dst, src, routerEnable, ready)]
      ensures index == FiledAll(old(index), Registered(dst, src, routerEnable, ready), |old(watchers)|)
    {
      var id := |watchers|;
      ghost var w := Registered(dst, src, routerEnable, ready);
      RegisterKeeps(watchers, index, w);
      if ready {
        watchers := watchers + [Watcher(dst, src, {}, {}, 0, false, [Ready])];
        return;
      }
      var refs, flag := FileNew(dst, src, routerEnable, id);
      watchers := watchers + [Watcher(dst, src, flag, flag, refs, true, [])];
    }

    // One index entry, one reference and one bit for each piece of data; the first reference is there
    // from the start.
    method FileNew(dst: Service, src: Option<Service>, routerEnable: bool, id: nat) returns (refs: int, flag: set<Wait>)
      modifies this`index
      ensures flag == Awaited(src, routerEnable) && refs == |flag|
      ensures index == FiledAll(old(index), Registered(dst, src, routerEnable, false), id)
    {
      refs := 1;
      index := Filed(index, IndexKey(dst, Instances), id);
      flag := {DstInstances};
      if routerEnable {
        refs := refs + 1;
        flag := flag + {DstRoute};
        index := Filed(index, IndexKey(dst, RouteRule), id);
        if src.Some? {
          refs := refs + 1;
          flag := flag + {SrcRoute};
          index := Filed(index, IndexKey(src.value, RouteRule), id);
        }
      }
    }

    // Clears the bit of the change, which must be set, and calls back when it was the last.
    method NotifyReady(id: nat, key: IndexKey)
      requires id < |watchers| && WaitFor(watchers[id], key) in watchers[id].waits
      modifies this`watchers
      ensures watchers == old(watchers)[id := Notified(old(watchers)[id], key).(refs := old(watchers)[id].refs)]
    {
      var w := watchers[id];
      var left := w.waits - {WaitFor(w, key)};
      watchers := watchers[id := w.(waits := left)];
      if left == {} {
        watchers := watchers[id := watchers[id].(armed := false, log := w.log + [Ready])];
      }
    }

    method DecrementRef(id: nat)
      requires id < |watchers|
      modifies this`watchers
      ensures watchers == old(watchers)[id := old(watchers)[id].(refs := old(watchers)[id].refs - 1)]
    {
      watchers := watchers[id := watchers[id].(refs := watchers[id].refs - 1)];
    }

    method OnServiceDataChange(key: IndexKey)
      requires Valid()
      modifies this
      ensures Valid() && watchers == ChangedAll(old(watchers), old(index), key) && index == old(index) - {key}
    {
      ChangeKeeps(watchers, index, key);
      if key !in index {
        assert ChangedAll(watchers, index, key) == watchers && index - {key} == index;
        return;
      }
      ghost var before := watchers;
      var todo := index[key];
      while todo != {}
        invariant index == old(index) && todo <= index[key] && |watchers| == |before|
        invariant forall id :: 0 <= id < |before| ==>
          watchers[id] == if id in index[key] && id !in todo then Notified(before[id], key) else before[id]
        decreases |todo|
      {
        var id :| id in todo;
        assert Holds(index, key, id) && WatcherInv(index, id, before[id]);
        NotifyReady(id, key);
        DecrementRef(id);
        todo := todo - {id};
      }
      index := index - {key};
      assert watchers == ChangedAll(before, old(index), key);
    }

    // Each bit is read from the watcher, also after a release: `late` says that one was read when no
    // reference was left.  That happens exactly if the last bit was not set.
    method RemoveTimeoutWatcher(id: nat) returns (late: bool)
      requires id < |watchers| && Proper(watchers[id])
      modifies this
      ensures index == UnfiledAll(old(index), old(watchers)[id], id)
      ensures watchers == old(watchers)[id := old(watchers)[id].(refs := old(watchers)[id].refs - |old(watchers)[id].waits|)]
      ensures var w := old(watchers)[id]; w.refs == |w.waits| != 0 ==> (late <==> SrcRoute !in w.waits)
    {
      BitCount(watchers[id].waits);
      late := watchers[id].refs <= 0;
      if DstInstances in watchers[id].waits {
        index := Unfiled(index, KeyOf(watchers[id], DstInstances), id);
        DecrementRef(id);
      }
      late := late || watchers[id].refs <= 0;
      if DstRoute in watchers[id].waits {
        index := Unfiled(index, KeyOf(watchers[id], DstRoute), id);
        DecrementRef(id);
      }
      late := late || watchers[id].refs <= 0;
      if SrcRoute in watchers[id].waits {
        index := Unfiled(index, KeyOf(watchers[id], SrcRoute), id);
        DecrementRef(id);
      }
    }

    // The timer fires: unless it was cancelled, the callback has not been made yet.
    method ServiceCacheTimeout(id: nat) returns (late: bool)
      requires Valid() && id < |watchers| && watchers[id].armed
      modifies this
      ensures Valid() && watchers == old(watchers)[id := Expired(old(watchers)[id])]
      ensures Proper(old(watchers)[id]) && index == UnfiledAll(old(index), old(watchers)[id], id)
      ensures late <==> SrcRoute !in old(watchers)[id].waits
    {
      TimeoutKeeps(watchers, index, id);
      watchers := watchers[id := watchers[id].(armed := false, log := watchers[id].log + [TimedOut])];
      late := RemoveTimeoutWatcher(id);
      assert watchers == old(watchers)[id := Expired(old(watchers)[id])];
    }
  }

  lemma RemoveBit(flag: set<Wait>, bit: Wait)
    ensures |flag| == |flag - {bit}| + if bit in flag then 1 else 0
  {
    assert flag == if bit in flag then flag - {bit} + {bit} else flag - {bit};
  }

  lemma BitCount(flag: set<Wait>)
    ensures |flag| == (if DstInstances in flag then 1 else 0) + (if DstRoute in flag then 1 else 0) +
                      (if SrcRoute in flag then 1 else 0)
  {
    var a := flag - {DstInstances};
    var b := a - {DstRoute};
    var c := b - {SrcRoute};
    RemoveBit(flag, DstInstances);
    RemoveBit(a, DstRoute);
    RemoveBit(b, SrcRoute);
    forall bit | bit in c
      ensures false
    {
      match bit
      case DstInstances =>
      case DstRoute =>
      case SrcRoute =>
    }
    assert c == {};
  }

  // Runs.  A timer that was cancelled or has fired does not fire.
  datatype Event =
    | Register(dst: Service, src: Option<Service>, routerEnable: bool, ready: bool)
    | Change(key: IndexKey)
    | Timeout(id: nat)

  datatype State = State(watchers: seq<Watcher>, index: Index)

  ghost function Apply(s: State, e: Event): State
    requires Inv(s.watchers, s.index)
  {
    match e
    case Register(dst, src, routerEnable, ready) =>
      var w := Registered(dst, src, routerEnable, ready);
      State(s.watchers + [w], FiledAll(s.index, w, |s.watchers|))
    case Change(key) => State(ChangedAll(s.watchers, s.index, key), s.index - {key})
    case Timeout(id) =>
      if id < |s.watchers| && s.watchers[id].armed then
        TimeoutKeeps(s.watchers, s.index, id);
        State(s.watchers[id := Expired(s.watchers[id])], UnfiledAll(s.index, s.watchers[id], id))
      else s
  }

  lemma ApplyKeeps(s: State, e: Event)
    requires Inv(s.watchers, s.index)
    ensures Inv(Apply(s, e).watchers, Apply(s, e).index)
  {
    match e
    case Register(dst, src, routerEnable, ready) =>
      RegisterKeeps(s.watchers, s.index, Registered(dst, src, routerEnable, ready));
    case Change(key) => ChangeKeeps(s.watchers, s.index, key);
    case Timeout(id) =>
      if id < |s.watchers| && s.watchers[id].armed {
        TimeoutKeeps(s.watchers, s.index, id);
      }
  }

  ghost function After(events: seq<Event>): (s: State)
    ensures Inv(s.watchers, s.index)
  {
    if events == [] then State([], map[])
    else
      var s := After(events[..|events| - 1]);
      ApplyKeeps(s, events[|events| - 1]);
      Apply(s, events[|events| - 1])
  }

  // The reference, from the events alone: how many watchers there are, what each was registered with,
  // which of its data changed since, and what it must have been told.
  ghost function Number(events: seq<Event>): nat {
    if events == [] then 0 else Number(events[..|events| - 1]) + if events[|events| - 1].Register? then 1 else 0
  }

  ghost function Registration(events: seq<Event>, id: nat): (e: Event)
    requires id < Number(events)
    ensures e.Register? && e in events
  {
    var before := events[..|events| - 1];
    if id < Number(before) then Registration(before, id) else events[|events| - 1]
  }

  ghost function First(events: seq<Event>, id: nat): Watcher
    requires id < Number(events)
  {
    var e := Registration(events, id);
    Registered(e.dst, e.src, e.routerEnable, e.ready)
  }

  ghost function Concerned(w: Watcher, key: IndexKey): set<Wait> {
    set wait | wait in w.awaited && (wait == SrcRoute ==> w.src.Some?) && KeyOf(w, wait) == key
  }

  ghost function Seen(events: seq<Event>, id: nat): set<Wait> {
    if events == [] then {}
    else
      var before, e := events[..|events| - 1], events[|events| - 1];
      Seen(before, id) + if e.Change? && id < Number(before) then Concerned(First(before, id), e.key) else {}
  }

  // The first of the two that happens counts.
  function NextVerdict(was: Option<Outcome>, fired: bool, complete: bool): Option<Outcome> {
    if was.Some? then was else if fired then Some(TimedOut) else if complete then Some(Ready) else None
  }

  // The data that a registration asks for: the instances of the destination and, with the rule router, the
  // rules of the destination and of the source, if there is one.
  ghost function Needed(e: Event): set<IndexKey>
    requires e.Register?
  {
    {IndexKey(e.dst, Instances)}
    + (if e.routerEnable then {IndexKey(e.dst, RouteRule)} else {})
    + (if e.routerEnable && e.src.Some? then {IndexKey(e.src.value, RouteRule)} else {})
  }

  // What has changed since the registration.
  ghost function ChangedSince(events: seq<Event>, id: nat): set<IndexKey> {
    if events == [] then {}
    else
      var before, e := events[..|events| - 1], events[|events| - 1];
      ChangedSince(before, id) + if e.Change? && id < Number(before) then {e.key} else {}
  }

  ghost function Verdict(events: seq<Event>, id: nat): Option<Outcome>
    requires id < Number(events)
  {
    var before, e := events[..|events| - 1], events[|events| - 1];
    if id == Number(before) then (if e.Register? && e.ready then Some(Ready) else None)
    else
      NextVerdict(Verdict(before, id), e == Timeout(id), Needed(Registration(events, id)) <= ChangedSince(events, id))
  }

  // A bit is seen exactly if its data has changed.
  lemma {:induction false} SeenMeans(events: seq<Event>, id: nat, wait: Wait)
    requires id < Number(events) && wait in First(events, id).awaited
    ensures wait == SrcRoute ==> First(events, id).src.Some?
    ensures wait in Seen(events, id) <==> KeyOf(First(events, id), wait) in ChangedSince(events, id)
    decreases |events|
  {
    var before := events[..|events| - 1];
    if id < Number(before) {
      SeenMeans(before, id, wait);
    } else {
      SeenLate(before, id);
      ChangedLate(before, id);
    }
  }

  lemma {:induction false} ChangedLate(events: seq<Event>, id: nat)
    requires id >= Number(events)
    ensures ChangedSince(events, id) == {}
    decreases |events|
  {
    if events != [] {
      ChangedLate(events[..|events| - 1], id);
    }
  }

  lemma NeededMeans(e: Event, changed: set<IndexKey>)
    requires e.Register?
    ensures Needed(e) <= changed <==>
      && IndexKey(e.dst, Instances) in changed
      && (e.routerEnable ==> IndexKey(e.dst, RouteRule) in changed)
      && (e.routerEnable && e.src.Some? ==> IndexKey(e.src.value, RouteRule) in changed)
  {
  }

  lemma AwaitedMeans(src: Option<Service>, routerEnable: bool, seen: set<Wait>)
    ensures Awaited(src, routerEnable) <= seen <==>
      DstInstances in seen && (routerEnable ==> DstRoute in seen) && (routerEnable && src.Some? ==> SrcRoute in seen)
  {
    assert DstInstances in Awaited(src, routerEnable);
    assert routerEnable ==> DstRoute in Awaited(src, routerEnable);
    assert routerEnable && src.Some? ==> SrcRoute in Awaited(src, routerEnable);
  }

  // All bits are seen exactly if all data that the registration asks for has changed.
  lemma CompleteMeans(events: seq<Event>, id: nat)
    requires id < Number(events) && !Registration(events, id).ready
    ensures First(events, id).awaited <= Seen(events, id) <==> Needed(Registration(events, id)) <= ChangedSince(events, id)
  {
    var e := Registration(events, id);
    AwaitedMeans(e.src, e.routerEnable, Seen(events, id));
    NeededMeans(e, ChangedSince(events, id));
    SeenMeans(events, id, DstInstances);
    if e.routerEnable {
      SeenMeans(events, id, DstRoute);
      if e.src.Some? {
        SeenMeans(events, id, SrcRoute);
      }
    }
  }

  lemma {:induction false} ReadyAtOnce(events: seq<Event>, id: nat)
    requires id < Number(events) && Registration(events, id).ready
    ensures Verdict(events, id) == Some(Ready)
    decreases |events|
  {
    if id < Number(events[..|events| - 1]) {
      ReadyAtOnce(events[..|events| - 1], id);
    }
  }

  ghost predicate AgreesWith(first: Watcher, seen: set<Wait>, verdict: Option<Outcome>, w: Watcher) {
    && w.dst == first.dst && w.src == first.src && w.awaited == first.awaited
    && match verdict
       case None => w.log == [] && w.waits == w.awaited - seen
       case Some(o) => w.log == [o]
  }

  // A watcher agrees with the reference.
  ghost predicate Agrees(events: seq<Event>, id: nat, w: Watcher)
    requires id < Number(events)
  {
    AgreesWith(First(events, id), Seen(events, id), Verdict(events, id), w)
  }

  lemma NewAgrees(before: seq<Event>, e: Event)
    requires e.Register?
    ensures Number(before + [e]) == Number(before) + 1
    ensures Agrees(before + [e], Number(before), Registered(e.dst, e.src, e.routerEnable, e.ready))
  {
    assert (before + [e])[..|before|] == before;
    SeenLate(before, Number(before));
  }

  // Nothing is seen for a watcher that is not there yet.
  lemma {:induction false} SeenLate(events: seq<Event>, id: nat)
    requires id >= Number(events)
    ensures Seen(events, id) == {}
  {
    if events != [] {
      SeenLate(events[..|events| - 1], id);
    }
  }

  // The reference after one more event.
  lemma Extended(before: seq<Event>, e: Event, id: nat)
    requires id < Number(before)
    ensures var events := before + [e];
      && id < Number(events) && First(events, id) == First(before, id)
      && Seen(events, id) == Seen(before, id) + (if e.Change? then Concerned(First(before, id), e.key) else {})
      && Verdict(events, id) ==
           NextVerdict(Verdict(before, id), e == Timeout(id), First(before, id).awaited <= Seen(events, id))
  {
    assert (before + [e])[..|before|] == before;
    if Registration(before, id).ready {
      ReadyAtOnce(before, id);
    } else {
      CompleteMeans(before + [e], id);
    }
  }

  lemma NowSeen(awaited: set<Wait>, seen: set<Wait>, more: set<Wait>)
    ensures awaited - (seen + more) == (awaited - seen) - more
    ensures awaited <= seen + more <==> (awaited - seen) - more == {}
  {
    if (awaited - seen) - more == {} {
      forall wait | wait in awaited
        ensures wait in seen + more
      {
        assert wait !in (awaited - seen) - more;
      }
    }
  }

  // Only an entry of the watcher concerns it.
  lemma ConcernedBits(w: Watcher, first: Watcher, key: IndexKey)
    requires Proper(w) && w.dst == first.dst && w.src == first.src && w.awaited == first.awaited && !WaitsTwice(w)
    ensures Concerned(first, key) * w.waits == if Entry(w, key) then {WaitFor(w, key)} else {}
  {
  }

  // Something else is seen: the watcher is as before.
  lemma StillWaiting(first: Watcher, seen: set<Wait>, more: set<Wait>, verdict: Option<Outcome>, w: Watcher)
    requires AgreesWith(first, seen, verdict, w) && (w.log == [] ==> w.waits != {} && more !! w.waits)
    ensures AgreesWith(first, seen + more, NextVerdict(verdict, false, first.awaited <= seen + more), w)
  {
    NowSeen(first.awaited, seen, more);
    assert w.log == [] ==> w.waits - more == w.waits;
  }

  // One bit is seen: it is cleared, and the callback is due if it was the last.
  lemma OneLess(first: Watcher, seen: set<Wait>, more: set<Wait>, w: Watcher, key: IndexKey)
    requires AgreesWith(first, seen, None, w) && more * w.waits == {WaitFor(w, key)}
    ensures AgreesWith(first, seen + more, NextVerdict(None, false, first.awaited <= seen + more), Notified(w, key))
  {
    NowSeen(first.awaited, seen, more);
    assert w.waits - more == w.waits - {WaitFor(w, key)};
  }

  // A watcher that a change does not reach, or that any other event is not about.
  lemma StillAgrees(before: seq<Event>, e: Event, id: nat, w: Watcher, index: Index)
    requires id < Number(before) && Agrees(before, id, w) && WatcherInv(index, id, w) && !WaitsTwice(w)
    requires e != Timeout(id) || w.log != []
    requires e.Change? ==> !Holds(index, e.key, id)
    ensures id < Number(before + [e]) && Agrees(before + [e], id, w)
  {
    Extended(before, e, id);
    var first := First(before, id);
    var more := if e.Change? then Concerned(first, e.key) else {};
    if e.Change? && w.log == [] {
      ConcernedBits(w, first, e.key);
      assert !Entry(w, e.key);
      assert more * w.waits == {};
    }
    StillWaiting(first, Seen(before, id), more, Verdict(before, id), w);
  }

  lemma ReachedAgrees(before: seq<Event>, key: IndexKey, id: nat, w: Watcher, index: Index)
    requires id < Number(before) && Agrees(before, id, w) && WatcherInv(index, id, w) && !WaitsTwice(w) && Holds(index, key, id)
    ensures id < Number(before + [Change(key)]) && Agrees(before + [Change(key)], id, Notified(w, key))
  {
    Extended(before, Change(key), id);
    var first := First(before, id);
    assert Entry(w, key);
    ConcernedBits(w, first, key);
    OneLess(first, Seen(before, id), Concerned(first, key), w, key);
  }

  lemma ExpiredAgrees(before: seq<Event>, id: nat, w: Watcher)
    requires id < Number(before) && Agrees(before, id, w) && w.log == []
    ensures id < Number(before + [Timeout(id)]) && Agrees(before + [Timeout(id)], id, Expired(w))
  {
    Extended(before, Timeout(id), id);
  }

  // What an event does to a watcher that is there.
  lemma AppliedAt(s: State, e: Event, id: nat)
    requires Inv(s.watchers, s.index) && id < |s.watchers|
    ensures id < |Apply(s, e).watchers|
    ensures Apply(s, e).watchers[id] ==
      if e.Change? && Holds(s.index, e.key, id) then Notified(s.watchers[id], e.key)
      else if e == Timeout(id) && s.watchers[id].armed then Expired(s.watchers[id])
      else s.watchers[id]
  {
  }

  lemma StepAgrees(before: seq<Event>, s: State, e: Event, id: nat)
    requires Inv(s.watchers, s.index)
    requires id < |s.watchers| == Number(before) && Agrees(before, id, s.watchers[id]) && !WaitsTwice(s.watchers[id])
    ensures id < Number(before + [e]) && id < |Apply(s, e).watchers|
    ensures Agrees(before + [e], id, Apply(s, e).watchers[id])
  {
    var w := s.watchers[id];
    assert WatcherInv(s.index, id, w);
    AppliedAt(s, e, id);
    if e.Change? && Holds(s.index, e.key, id) {
      ReachedAgrees(before, e.key, id, w, s.index);
    } else if e == Timeout(id) && w.armed {
      ExpiredAgrees(before, id, w);
    } else {
      StillAgrees(before, e, id, w, s.index);
    }
  }

  lemma NumberGrows(before: seq<Event>, e: Event)
    ensures Number(before + [e]) == Number(before) + if e.Register? then 1 else 0
  {
    assert (before + [e])[..|before|] == before;
  }

  lemma {:induction false} AllThere(events: seq<Event>)
    ensures |After(events).watchers| == Number(events)
    decreases |events|
  {
    if events != [] {
      AllThere(events[..|events| - 1]);
    }
  }

  // Whatever the order of registrations, changes and timeouts, every watcher that does not wait for one
  // set twice has been called back as the events require: at most once, ready exactly if all it waits
  // for changed before its timer fired.
  lemma {:induction false} CalledBackAsDue(events: seq<Event>, id: nat)
    requires id < Number(events) && !WaitsTwice(First(events, id))
    ensures id < |After(events).watchers| && Agrees(events, id, After(events).watchers[id])
    decreases |events|
  {
    AllThere(events);
    if events != [] {
      var before, e := events[..|events| - 1], events[|events| - 1];
      AllThere(before);
      assert before + [e] == events;
      NumberGrows(before, e);
      if id < Number(before) {
        Extended(before, e, id);
        CalledBackAsDue(before, id);
        StepAgrees(before, After(before), e, id);
      } else {
        NewAgrees(before, e);
      }
    }
  }

  // ---------------------------------------------------------------------------------------------
  // Source and destination are one service
  // ---------------------------------------------------------------------------------------------

  // The timer fired after the registration.
  ghost predicate Fired(events: seq<Event>, id: nat) {
    events != [] &&
      var before, e := events[..|events| - 1], events[|events| - 1];
      id < Number(before) && (Fired(before, id) || e == Timeout(id))
  }

  ghost predicate OnlyTimesOut(events: seq<Event>, id: nat, w: Watcher)
    requires id < Number(events)
  {
    && w.dst == First(events, id).dst && w.src == First(events, id).src && w.awaited == First(events, id).awaited
    && w.log == if Fired(events, id) then [TimedOut] else []
  }

  lemma TwiceStep(before: seq<Event>, s: State, e: Event, id: nat)
    requires Inv(s.watchers, s.index) && id < |s.watchers| == Number(before)
    requires OnlyTimesOut(before, id, s.watchers[id]) && WaitsTwice(s.watchers[id])
    ensures id < Number(before + [e]) && id < |Apply(s, e).watchers|
    ensures OnlyTimesOut(before + [e], id, Apply(s, e).watchers[id])
  {
    var w := s.watchers[id];
    assert WatcherInv(s.index, id, w);
    assert (before + [e])[..|before|] == before;
    Extended(before, e, id);
    AppliedAt(s, e, id);
    if e.Change? && Holds(s.index, e.key, id) {
      assert WaitFor(w, e.key) != SrcRoute;
      assert SrcRoute in Notified(w, e.key).waits;
    }
  }

  // No change clears the bit of the source: such a watcher is never told that it is ready.
  lemma {:induction false} NeverReady(events: seq<Event>, id: nat)
    requires id < Number(events) && WaitsTwice(First(events, id))
    ensures id < |After(events).watchers| && OnlyTimesOut(events, id, After(events).watchers[id])
    decreases |events|
  {
    AllThere(events);
    var before, e := events[..|events| - 1], events[|events| - 1];
    AllThere(before);
    assert before + [e] == events;
    NumberGrows(before, e);
    if id < Number(before) {
      Extended(before, e, id);
      NeverReady(before, id);
      TwiceStep(before, After(before), e, id);
    }
  }

  function LogOf(verdict: Option<Outcome>): seq<Outcome> {
    match verdict
    case None => []
    case Some(o) => [o]
  }

  ghost predicate ToldAsDue(events: seq<Event>, id: nat)
    requires id < Number(events) && id < |After(events).watchers|
  {
    After(events).watchers[id].log == LogOf(Verdict(events, id))
  }

  lemma TimerToldAsDue(log: seq<Outcome>, verdict: Option<Outcome>, fired: bool)
    requires log == if fired then [TimedOut] else []
    requires (verdict == Some(TimedOut) ==> fired) && (verdict == None ==> !fired)
    ensures log == LogOf(verdict) <==> verdict != Some(Ready)
  {
    match verdict
    case None =>
    case Some(o) =>
      match o
      case Ready => assert LogOf(verdict)[0] == Ready;
      case TimedOut => assert LogOf(verdict)[0] == TimedOut;
  }

  lemma {:induction false} VerdictAndTimer(events: seq<Event>, id: nat)
    requires id < Number(events)
    ensures Verdict(events, id) == Some(TimedOut) ==> Fired(events, id)
    ensures Verdict(events, id) == None ==> !Fired(events, id)
    decreases |events|
  {
    var before := events[..|events| - 1];
    if id < Number(before) {
      VerdictAndTimer(before, id);
    }
  }

  // A watcher has been told what is due if and only if it does not wait for one set twice or the data
  // was not complete before its timer fired.
  lemma {:induction false} ToldExactlyIf(events: seq<Event>, id: nat)
    requires id < Number(events)
    ensures id < |After(events).watchers|
    ensures ToldAsDue(events, id) <==> !WaitsTwice(First(events, id)) || Verdict(events, id) != Some(Ready)
    ensures var e := Registration(events, id);
      WaitsTwice(First(events, id)) <==> e.routerEnable && !e.ready && e.src == Some(e.dst)
  {
    if WaitsTwice(First(events, id)) {
      NeverReady(events, id);
      VerdictAndTimer(events, id);
      TimerToldAsDue(After(events).watchers[id].log, Verdict(events, id), Fired(events, id));
    } else {
      CalledBackAsDue(events, id);
    }
  }

  // One watcher for a service as its own source, and what each change of its data concerns.
  lemma OneRegistered(service: Service)
    ensures var a := [Register(service, Some(service), true, false)];
      && Number(a) == 1 && First(a, 0) == Registered(service, Some(service), true, false)
      && Seen(a, 0) == {} && Verdict(a, 0) == None && !Fired(a, 0)
  {
    assert [Register(service, Some(service), true, false)][..0] == [];
  }

  lemma OneConcerned(service: Service)
    ensures var first := Registered(service, Some(service), true, false);
      && first.awaited == {DstInstances, DstRoute, SrcRoute} && WaitsTwice(first)
      && Concerned(first, IndexKey(service, RouteRule)) == {DstRoute, SrcRoute}
      && Concerned(first, IndexKey(service, Instances)) == {DstInstances}
  {
  }

  lemma Arrives(before: seq<Event>, key: IndexKey)
    requires Number(before) == 1 && !Fired(before, 0)
    ensures var events := before + [Change(key)];
      && Number(events) == 1 && !Fired(events, 0) && First(events, 0) == First(before, 0)
      && Seen(events, 0) == Seen(before, 0) + Concerned(First(before, 0), key)
      && Verdict(events, 0) == NextVerdict(Verdict(before, 0), false, First(before, 0).awaited <= Seen(events, 0))
  {
    assert (before + [Change(key)])[..|before|] == before;
    NumberGrows(before, Change(key));
    Extended(before, Change(key), 0);
  }

  lemma AllSeen()
    ensures !({DstInstances, DstRoute, SrcRoute} <= {} + {DstRoute, SrcRoute})
    ensures {DstInstances, DstRoute, SrcRoute} <= {} + {DstRoute, SrcRoute} + {DstInstances}
  {
    assert DstInstances in {DstInstances, DstRoute, SrcRoute} && DstInstances !in {DstRoute, SrcRoute};
  }

  // Everything is there and the watcher is not told.
  lemma SameServiceNotTold(service: Service)
    ensures var events := [Register(service, Some(service), true, false)] +
        [Change(IndexKey(service, RouteRule))] + [Change(IndexKey(service, Instances))];
      && Number(events) == 1 == |After(events).watchers|
      && Verdict(events, 0) == Some(Ready) && After(events).watchers[0].log == []
  {
    var a := [Register(service, Some(service), true, false)];
    var b := a + [Change(IndexKey(service, RouteRule))];
    var events := b + [Change(IndexKey(service, Instances))];
    OneRegistered(service);
    OneConcerned(service);
    AllSeen();
    Arrives(a, IndexKey(service, RouteRule));
    Arrives(b, IndexKey(service, Instances));
    NeverReady(events, 0);
    AllThere(events);
  }
}
