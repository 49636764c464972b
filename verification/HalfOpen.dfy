// Half-open probing (Service::SetCircuitBreakerData and TryChooseHalfOpenInstance in
// polaris/model/model.cpp): which instances that were cut off may be tried again, and how often.
module HalfOpen {
  import opened Common

  type Id(==, !new)

  const SLOT: nat := 2000      // milliseconds between two probes
  const REQUESTS: nat := 20    // requests between two probes

  datatype CircuitBreakerData = CircuitBreakerData(version: nat, halfOpen: map<Id, int>, open: set<Id>)

  // An instance that was half-open before keeps what is left of its budget.
  function Regenerated(halfOpen: map<Id, int>, data: map<Id, int>): map<Id, int> {
    map id | id in halfOpen :: if id in data then data[id] else halfOpen[id]
  }

  predicate HasBudget(data: map<Id, int>, id: Id) {
    id in data && data[id] > 0
  }

  // The first instance with budget at or after the split point, or else the first before it.
  ghost predicate Picks(instances: seq<Id>, data: map<Id, int>, split: nat, r: Option<nat>) {
    match r
    case None => forall i :: 0 <= i < |instances| ==> !HasBudget(data, instances[i])
    case Some(k) =>
      && k < |instances| && HasBudget(data, instances[k])
      && (forall i :: split <= i < |instances| && (k < split || i < k) ==> !HasBudget(data, instances[i]))
      && (k < split ==> forall i :: 0 <= i < k ==> !HasBudget(data, instances[i]))
  }

  class Service {
    var version: nat
    var halfOpenInstances: map<Id, int>
    var openInstances: set<Id>
    var halfOpenData: map<Id, int>
    var haveHalfOpenData: bool
    var tryCount: nat
    var lastTime: nat

    ghost predicate Valid()
      reads this
    {
      && haveHalfOpenData == (halfOpenData != map[])
      && halfOpenData.Keys == halfOpenInstances.Keys
    }

    constructor ()
      ensures Valid() && version == 0 && halfOpenData == map[] && tryCount == 0 && lastTime == 0
    {
      version, halfOpenInstances, openInstances, halfOpenData := 0, map[], {}, map[];
      haveHalfOpenData, tryCount, lastTime := false, 0, 0;
    }

    // Budgets left over are copied one by one.
    method CopyLeftOver(halfOpen: map<Id, int>) returns (merged: map<Id, int>)
      ensures merged == Regenerated(halfOpen, halfOpenData)
      ensures merged.Keys == halfOpen.Keys
      ensures forall id :: id in halfOpen ==> merged[id] == if id in halfOpenData then halfOpenData[id] else halfOpen[id]
    {
      merged := halfOpen;
      var todo := halfOpenData.Keys;
      while todo != {}
        invariant todo <= halfOpenData.Keys && merged.Keys == halfOpen.Keys
        invariant forall id :: id in halfOpen ==>
          merged[id] == if id in halfOpenData && id !in todo then halfOpenData[id] else halfOpen[id]
        decreases |todo|
      {
        var id :| id in todo;
        if id in merged {
          merged := merged[id := halfOpenData[id]];
        }
        todo := todo - {id};
      }
    }

    // Only a newer version is taken over.
    method SetCircuitBreakerData(data: CircuitBreakerData)
      requires Valid()
      modifies this
      ensures Valid() && lastTime == old(lastTime)
      ensures if data.version <= old(version) then
          && version == old(version) && halfOpenData == old(halfOpenData) && openInstances == old(openInstances)
          && halfOpenInstances == old(halfOpenInstances) && tryCount == old(tryCount)
        else
          && version == data.version && halfOpenInstances == data.halfOpen && openInstances == data.open
          && halfOpenData == Regenerated(data.halfOpen, old(halfOpenData))
          && halfOpenData.Keys == data.halfOpen.Keys
          && (forall id :: id in data.halfOpen ==>
                halfOpenData[id] == if id in old(halfOpenData) then old(halfOpenData)[id] else data.halfOpen[id])
          && tryCount == if data.halfOpen == map[] then REQUESTS else old(tryCount)
    {
      if data.version <= version {
        return;
      }
      halfOpenInstances := data.halfOpen;
      openInstances := data.open;
      version := data.version;
      var merged := CopyLeftOver(halfOpenInstances);
      halfOpenData := merged;
      assert merged.Keys == data.halfOpen.Keys;
      if halfOpenData != map[] {
        haveHalfOpenData := true;
      } else {
        assert data.halfOpen.Keys == {};
        haveHalfOpenData := false;
        tryCount := REQUESTS;
      }
    }

    // The two loops: from the split point to the end, then from the beginning to the split point.
    method Search(instances: seq<Id>, split: nat) returns (r: Option<nat>)
      requires split <= |instances|
      ensures Picks(instances, halfOpenData, split, r)
    {
      var i := split;
      while i < |instances|
        invariant split <= i <= |instances|
        invariant forall j :: split <= j < i ==> !HasBudget(halfOpenData, instances[j])
      {
        if HasBudget(halfOpenData, instances[i]) {
          return Some(i);
        }
        i := i + 1;
      }
      i := 0;
      while i < split
        invariant i <= split
        invariant forall j :: 0 <= j < i || split <= j < |instances| ==> !HasBudget(halfOpenData, instances[j])
      {
        if HasBudget(halfOpenData, instances[i]) {
          return Some(i);
        }
        i := i + 1;
      }
      return None;
    }

    // The slot is claimed when the requests and the time since the last probe suffice; a claimed slot
    // gives an instance exactly when one of them has budget, wherever the search starts.
    method TryChooseHalfOpenInstance(instances: seq<Id>, split: nat, now: nat) returns (r: Option<Id>)
      requires Valid() && (instances == [] || split < |instances|)
      modifies this
      ensures Valid() && version == old(version) && halfOpenInstances == old(halfOpenInstances)
      ensures openInstances == old(openInstances)
      ensures var counted := old(haveHalfOpenData) && instances != [];
        var claimed := counted && old(tryCount) + 1 >= REQUESTS && now >= old(lastTime) + SLOT;
        && tryCount == (if claimed then 0 else if counted then old(tryCount) + 1 else old(tryCount))
        && lastTime == (if claimed then now else old(lastTime))
        && (r.Some? <==> claimed && exists i :: 0 <= i < |instances| && HasBudget(old(halfOpenData), instances[i]))
      ensures halfOpenData ==
        if r.None? then old(halfOpenData)
        else
          var left := if r.value in old(halfOpenData) then old(halfOpenData)[r.value] else 0;
          old(halfOpenData)[r.value := left - 1]
      ensures r.Some? ==> exists k: nat :: Picks(instances, old(halfOpenData), split, Some(k)) && r.value == instances[k]
    {
      if !haveHalfOpenData || instances == [] {
        return None;
      }
      tryCount := tryCount + 1;
      if tryCount < REQUESTS {
        return None;
      }
      if now < lastTime + SLOT {
        return None;
      }
      lastTime := now;
      tryCount := 0;
      var k := Search(instances, split);
      match k
      case None => r := None;
      case Some(at) =>
        var id := instances[at];
        halfOpenData := halfOpenData[id := halfOpenData[id] - 1];
        assert Picks(instances, old(halfOpenData), split, Some(at));
        assert halfOpenData.Keys == old(halfOpenData).Keys;
        r := Some(id);
    }
  }
}

// The same service used by any number of threads: updates come in two critical sections, and a probe
// claims its slot with a load, a clock reading and a compare-exchange before it enters the second.
module HalfOpenProtocol {
  import opened Common
  import opened HalfOpen

  datatype Call =
    | Trying(instances: seq<Id>)                        // past the request counter
    | Loaded(instances: seq<Id>, last: nat)             // last_half_open_time_ read
    | Timed(instances: seq<Id>, last: nat, now: nat)    // clock read, late enough
    | Claimed(instances: seq<Id>)                       // the exchange succeeded
    | Ended

  // claims: the times stored by successful exchanges; versions: those accepted, with the half-open
  // instances each has published in `offers`.  entry and chosen give, for each instance in
  // half_open_data_, the budget published for it when it came in and how often it has been chosen since;
  // probes counts all choices.
  datatype State = State(
    version: nat,
    halfOpen: map<Id, int>,
    data: map<Id, int>,
    last: nat,
    calls: seq<Call>,
    claims: seq<nat>,
    versions: seq<nat>,
    offers: seq<map<Id, int>>,
    entry: map<Id, int>,
    chosen: map<Id, int>,
    probes: nat)

  const Start: State := State(0, map[], map[], 0, [], [], [], [], map[], map[], 0)

  datatype Step =
    | Publish(version: nat, halfOpen: map<Id, int>)    // under circuit_breaker_data_lock_
    | Regenerate                                       // under half_open_lock_
    | Enter(instances: seq<Id>)
    | Load(call: nat)
    | ReadClock(call: nat, now: nat)
    | Exchange(call: nat)
    | Pick(call: nat, split: nat, at: Option<nat>)     // under half_open_lock_

  ghost predicate Enabled(s: State, step: Step) {
    match step
    case Publish(_, _) => true
    case Regenerate => true
    case Enter(_) => true
    case Load(c) => c < |s.calls| && s.calls[c].Trying?
    case ReadClock(c, _) => c < |s.calls| && s.calls[c].Loaded?
    case Exchange(c) => c < |s.calls| && s.calls[c].Timed?
    case Pick(c, split, at) => c < |s.calls| && s.calls[c].Claimed? && Picks(s.calls[c].instances, s.data, split, at)
  }

  ghost function Apply(s: State, step: Step): State
    requires Enabled(s, step)
  {
    match step
    case Publish(version, halfOpen) =>
      if version <= s.version then s
      else s.(version := version, halfOpen := halfOpen, versions := s.versions + [version], offers := s.offers + [halfOpen])
    case Regenerate =>
      s.(data := Regenerated(s.halfOpen, s.data),
         entry := map id | id in s.halfOpen :: if id in s.data && id in s.entry then s.entry[id] else s.halfOpen[id],
         chosen := map id | id in s.halfOpen :: if id in s.chosen then s.chosen[id] else 0)
    case Enter(instances) => s.(calls := s.calls + [Trying(instances)])
    case Load(c) => s.(calls := s.calls[c := Loaded(s.calls[c].instances, s.last)])
    case ReadClock(c, now) =>
      var call := s.calls[c];
      s.(calls := s.calls[c := if now < call.last + SLOT then Ended else Timed(call.instances, call.last, now)])
    case Exchange(c) =>
      var call := s.calls[c];
      if s.last != call.last then s.(calls := s.calls[c := Ended])
      else s.(last := call.now, claims := s.claims + [call.now], calls := s.calls[c := Claimed(call.instances)])
    case Pick(c, _, at) =>
      var t := s.(calls := s.calls[c := Ended]);
      if at.None? then t
      else
        var id := s.calls[c].instances[at.value];
        t.(data := s.data[id := s.data[id] - 1],
           chosen := s.chosen[id := (if id in s.chosen then s.chosen[id] else 0) + 1],
           probes := s.probes + 1)
  }

  // Each claim that has not been used for a search yet is held by one call.
  function Holding(calls: seq<Call>): nat {
    if calls == [] then 0 else (if calls[0].Claimed? then 1 else 0) + Holding(calls[1..])
  }

  ghost predicate Increasing(versions: seq<nat>) {
    forall i, j :: 0 <= i < j < |versions| ==> versions[i] < versions[j]
  }

  ghost predicate Spaced(claims: seq<nat>) {
    && (forall i :: 0 <= i < |claims| ==> claims[i] >= SLOT)
    && (forall i, j :: 0 <= i < j < |claims| ==> claims[j] >= claims[i] + SLOT)
  }

  // An instance is chosen as often as it came in for, at most; not at all if it came in for nothing.
  ghost predicate InBudget(entry: int, chosen: int, left: int) {
    chosen + left == entry && 0 <= chosen <= if entry >= 0 then entry else 0
  }

  ghost predicate Budgets(s: State) {
    && s.data.Keys == s.entry.Keys == s.chosen.Keys
    && forall id :: id in s.data ==> InBudget(s.entry[id], s.chosen[id], s.data[id])
  }

  // The budget was published for the instance with an accepted version.
  ghost predicate Offered(offers: seq<map<Id, int>>, id: Id, budget: int) {
    exists k :: 0 <= k < |offers| && id in offers[k] && offers[k][id] == budget
  }

  ghost predicate OffersInv(s: State) {
    && |s.offers| == |s.versions|
    && s.halfOpen == (if s.offers == [] then map[] else s.offers[|s.offers| - 1])
    && (forall id :: id in s.entry ==> Offered(s.offers, id, s.entry[id]))
  }

  ghost predicate Inv(s: State) {
    && Increasing(s.versions) && (forall i :: 0 <= i < |s.versions| ==> s.versions[i] <= s.version)
    && Spaced(s.claims)
    && (if s.claims == [] then s.last == 0 else s.last == s.claims[|s.claims| - 1])
    && SLOT * |s.claims| <= s.last
    && (forall c :: 0 <= c < |s.calls| && s.calls[c].Timed? ==> s.calls[c].now >= s.calls[c].last + SLOT)
    && Budgets(s)
    && OffersInv(s)
    && s.probes + Holding(s.calls) <= |s.claims|
  }

  lemma {:induction false} HoldingUpdate(calls: seq<Call>, c: nat, call: Call)
    requires c < |calls|
    ensures Holding(calls[c := call]) == Holding(calls) - (if calls[c].Claimed? then 1 else 0) + if call.Claimed? then 1 else 0
  {
    if c == 0 {
      assert calls[c := call][1..] == calls[1..];
    } else {
      assert calls[c := call][1..] == calls[1..][c - 1 := call];
      HoldingUpdate(calls[1..], c - 1, call);
    }
  }

  lemma {:induction false} HoldingAppend(calls: seq<Call>, call: Call)
    requires !call.Claimed?
    ensures Holding(calls + [call]) == Holding(calls)
  {
    if calls == [] {
      assert calls + [call] == [call];
    } else {
      assert (calls + [call])[1..] == calls[1..] + [call];
      HoldingAppend(calls[1..], call);
    }
  }

  lemma UpdateKeeps(s: State, step: Step)
    requires Inv(s) && (step.Publish? || step.Regenerate?)
    ensures Inv(Apply(s, step))
  {
    OffersKeep(s, step);
  }

  lemma OffersKeep(s: State, step: Step)
    requires OffersInv(s) && (step.Publish? || step.Regenerate?)
    ensures OffersInv(Apply(s, step))
  {
    var t := Apply(s, step);
    forall id | id in t.entry ensures Offered(t.offers, id, t.entry[id]) {
      if id in s.entry && Offered(s.offers, id, s.entry[id]) {
        var k :| 0 <= k < |s.offers| && id in s.offers[k] && s.offers[k][id] == s.entry[id];
        assert t.offers[k] == s.offers[k];
      }
      assert step.Regenerate? && s.offers != [] ==> t.offers[|s.offers| - 1] == s.halfOpen;
    }
  }

  lemma CallKeeps(s: State, step: Step)
    requires Inv(s) && Enabled(s, step) && (step.Enter? || step.Load? || step.ReadClock?)
    ensures Inv(Apply(s, step))
  {
    if step.Enter? {
      HoldingAppend(s.calls, Trying(step.instances));
    } else {
      HoldingUpdate(s.calls, step.call, Apply(s, step).calls[step.call]);
    }
  }

  lemma SpacedAppend(claims: seq<nat>, last: nat, now: nat)
    requires Spaced(claims) && now >= last + SLOT
    requires if claims == [] then last == 0 else last == claims[|claims| - 1]
    ensures Spaced(claims + [now])
  {
  }

  lemma ExchangeKeeps(s: State, step: Step)
    requires Inv(s) && Enabled(s, step) && step.Exchange?
    ensures Inv(Apply(s, step))
  {
    var t := Apply(s, step);
    HoldingUpdate(s.calls, step.call, t.calls[step.call]);
    if s.last == s.calls[step.call].last {
      SpacedAppend(s.claims, s.last, s.calls[step.call].now);
    }
  }

  lemma PickBudgets(s: State, step: Step)
    requires Budgets(s) && Enabled(s, step) && step.Pick?
    ensures Budgets(Apply(s, step))
  {
  }

  lemma PickKeeps(s: State, step: Step)
    requires Inv(s) && Enabled(s, step) && step.Pick?
    ensures Inv(Apply(s, step))
  {
    HoldingUpdate(s.calls, step.call, Ended);
    PickBudgets(s, step);
  }

  lemma StepKeeps(s: State, step: Step)
    requires Inv(s) && Enabled(s, step)
    ensures Inv(Apply(s, step))
  {
    match step
    case Publish(_, _) => UpdateKeeps(s, step);
    case Regenerate => UpdateKeeps(s, step);
    case Exchange(_) => ExchangeKeeps(s, step);
    case Pick(_, _, _) => PickKeeps(s, step);
    case _ => CallKeeps(s, step);
  }

  ghost predicate Runs(s: State, steps: seq<Step>)
    decreases |steps|
  {
    steps == [] || (Enabled(s, steps[0]) && Runs(Apply(s, steps[0]), steps[1..]))
  }

  ghost function After(s: State, steps: seq<Step>): State
    requires Runs(s, steps)
    decreases |steps|
  {
    if steps == [] then s else After(Apply(s, steps[0]), steps[1..])
  }

  lemma {:induction false} RunKeeps(s: State, steps: seq<Step>)
    requires Inv(s) && Runs(s, steps)
    ensures Inv(After(s, steps))
    decreases |steps|
  {
    if steps != [] {
      StepKeeps(s, steps[0]);
      RunKeeps(Apply(s, steps[0]), steps[1..]);
    }
  }

  // Over any run: accepted versions increase, claims are at least 2000 ms apart, so probes are no more
  // than one per 2000 ms, and what an instance was given plus what it has left is the budget that was
  // published for it when it came in, which it never exceeds.
  lemma ProbingIsBounded(steps: seq<Step>)
    requires Runs(Start, steps)
    ensures var s := After(Start, steps);
      && Increasing(s.versions)
      && Spaced(s.claims)
      && SLOT * s.probes <= s.last
      && Budgets(s)
      && (forall id :: id in s.entry ==> Offered(s.offers, id, s.entry[id]))
  {
    RunKeeps(Start, steps);
  }

  // ---------------------------------------------------------------------------------------------
  // Calls that nobody interrupts do what the class does
  // ---------------------------------------------------------------------------------------------

  lemma Before(s: State, step: Step, rest: seq<Step>)
    requires Enabled(s, step) && Runs(Apply(s, step), rest)
    ensures Runs(s, [step] + rest) && After(s, [step] + rest) == After(Apply(s, step), rest)
  {
    assert ([step] + rest)[1..] == rest;
  }

  lemma Last(s: State, step: Step)
    requires Enabled(s, step)
    ensures Runs(s, [step]) && After(s, [step]) == Apply(s, step)
  {
    Before(s, step, []);
    assert [step] + [] == [step];
  }

  // An accepted update.
  lemma UpdateIsSteps(s: State, version: nat, halfOpen: map<Id, int>)
    requires version > s.version
    ensures var steps := [Publish(version, halfOpen)] + [Regenerate];
      && Runs(s, steps)
      && var t := After(s, steps);
         && t.version == version && t.halfOpen == halfOpen && t.data.Keys == halfOpen.Keys && t.last == s.last
         && forall id :: id in halfOpen ==> t.data[id] == if id in s.data then s.data[id] else halfOpen[id]
  {
    Last(Apply(s, Publish(version, halfOpen)), Regenerate);
    Before(s, Publish(version, halfOpen), [Regenerate]);
  }

  // The end of a call that has claimed its slot.
  lemma ClaimIsSteps(s: State, c: nat, split: nat, at: Option<nat>)
    requires c < |s.calls| && s.calls[c].Timed? && s.calls[c].last == s.last
    requires Picks(s.calls[c].instances, s.data, split, at)
    ensures var steps := [Exchange(c)] + [Pick(c, split, at)];
      && Runs(s, steps)
      && var t := After(s, steps);
         && t.last == s.calls[c].now && t.calls == s.calls[c := Ended]
         && t.data == if at.None? then s.data
                      else var id := s.calls[c].instances[at.value]; s.data[id := s.data[id] - 1]
  {
    var a := Apply(s, Exchange(c));
    Last(a, Pick(c, split, at));
    Before(s, Exchange(c), [Pick(c, split, at)]);
    assert a.calls[c := Ended] == s.calls[c := Ended];
  }

  // A probe, from the point where the class has counted the request: it claims the slot exactly if the
  // last claim is 2000 ms ago, and takes one from the budget of the instance that the search finds.
  lemma ProbeIsSteps(s: State, instances: seq<Id>, now: nat, split: nat, at: Option<nat>)
    requires Picks(instances, s.data, split, at)
    ensures var c := |s.calls|;
      var rest := if now < s.last + SLOT then [] else [Exchange(c)] + [Pick(c, split, at)];
      var steps := [Enter(instances)] + ([Load(c)] + ([ReadClock(c, now)] + rest));
      && Runs(s, steps)
      && var t := After(s, steps);
         if now < s.last + SLOT then t.last == s.last && t.data == s.data
         else t.last == now && t.data == if at.None? then s.data
                                         else s.data[instances[at.value] := s.data[instances[at.value]] - 1]
  {
    var c := |s.calls|;
    var a := Apply(s, Enter(instances));
    var b := Apply(a, Load(c));
    var d := Apply(b, ReadClock(c, now));
    var rest := if now < s.last + SLOT then [] else [Exchange(c)] + [Pick(c, split, at)];
    if now >= s.last + SLOT {
      ClaimIsSteps(d, c, split, at);
    }
    Before(b, ReadClock(c, now), rest);
    Before(a, Load(c), [ReadClock(c, now)] + rest);
    Before(s, Enter(instances), [Load(c)] + ([ReadClock(c, now)] + rest));
  }
}
