// Local instance ids (ServiceImpl::UpdateInstanceId in polaris/model/model.cpp).
module LocalIds {
  type Id(==, !new)

  const WIDTH: nat := 0x1_0000_0000    // the range of the 32-bit counter and of a service id

  // service_id_ << 32 | the counter, which is cut to 32 bits.
  function LocalId(service: nat, number: nat): nat {
    service * WIDTH + number % WIDTH
  }

  // Two numbers share a local id exactly if they are a multiple of 2^32 apart; services never do.
  lemma LocalIdsDiffer(s: nat, m: nat, t: nat, n: nat)
    ensures LocalId(s, m) == LocalId(t, n) <==> s == t && m % WIDTH == n % WIDTH
  {
  }

  // numbers: the counter value each known instance got, before it is cut; byNumber: the instances in
  // the order in which the counter was advanced for them.
  datatype Table = Table(numbers: map<Id, nat>, byNumber: seq<Id>)

  const Empty: Table := Table(map[], [])

  ghost predicate Numbered(t: Table, id: Id)
    requires id in t.numbers
  {
    1 <= t.numbers[id] <= |t.byNumber| && t.byNumber[t.numbers[id] - 1] == id
  }

  ghost predicate Inv(t: Table) {
    forall id {:trigger Numbered(t, id)} :: id in t.numbers ==> Numbered(t, id)
  }

  // An instance known from the last update keeps its number.
  function Assigned(was: map<Id, nat>, t: Table, id: Id): Table {
    if id in was then t.(numbers := t.numbers[id := was[id]])
    else Table(t.numbers[id := |t.byNumber| + 1], t.byNumber + [id])
  }

  // The first n instances of an update.
  function AssignedAll(t: Table, ids: seq<Id>, n: nat): Table
    requires n <= |ids|
  {
    if n == 0 then t.(numbers := map[]) else Assigned(t.numbers, AssignedAll(t, ids, n - 1), ids[n - 1])
  }

  // The number the instance at place i gets.
  function NumberAt(t: Table, ids: seq<Id>, i: nat): nat
    requires i < |ids|
  {
    var after := AssignedAll(t, ids, i + 1);
    if ids[i] in after.numbers then after.numbers[ids[i]] else 0
  }

  lemma {:induction false} AssignedAllKeeps(t: Table, ids: seq<Id>, n: nat)
    requires Inv(t) && n <= |ids|
    ensures Inv(AssignedAll(t, ids, n)) && t.byNumber <= AssignedAll(t, ids, n).byNumber
  {
    if n > 0 {
      AssignedAllKeeps(t, ids, n - 1);
      var before, after := AssignedAll(t, ids, n - 1), AssignedAll(t, ids, n);
      forall id | id in after.numbers
        ensures Numbered(after, id)
      {
        assert id in before.numbers ==> Numbered(before, id);
        assert id in t.numbers ==> Numbered(t, id);
      }
    }
  }

  lemma {:induction false} Grows(t: Table, ids: seq<Id>, m: nat, n: nat)
    requires m <= n <= |ids|
    ensures AssignedAll(t, ids, m).byNumber <= AssignedAll(t, ids, n).byNumber
  {
    if m < n {
      Grows(t, ids, m, n - 1);
    }
  }

  // Whoever gets a number is the one the counter was advanced for, in every later table too; an
  // instance that was there in the last update keeps its number.
  lemma NumberBelongs(t: Table, ids: seq<Id>, i: nat)
    requires Inv(t) && i < |ids|
    ensures var after := AssignedAll(t, ids, |ids|);
      1 <= NumberAt(t, ids, i) <= |after.byNumber| && after.byNumber[NumberAt(t, ids, i) - 1] == ids[i]
    ensures ids[i] in t.numbers ==> NumberAt(t, ids, i) == t.numbers[ids[i]]
  {
    AssignedAllKeeps(t, ids, i + 1);
    Grows(t, ids, i + 1, |ids|);
    assert Numbered(AssignedAll(t, ids, i + 1), ids[i]);
  }

  // The number an instance that occurs once gets is the one it is known by afterwards.
  lemma {:induction false} KnownBy(t: Table, ids: seq<Id>, i: nat, n: nat)
    requires i < n <= |ids| && forall j :: i < j < n ==> ids[j] != ids[i]
    ensures ids[i] in AssignedAll(t, ids, n).numbers && AssignedAll(t, ids, n).numbers[ids[i]] == NumberAt(t, ids, i)
  {
    if i + 1 < n {
      KnownBy(t, ids, i, n - 1);
    }
  }

  // An update forgets the instances that are not in it.
  lemma {:induction false} KnownExactly(t: Table, ids: seq<Id>, n: nat)
    requires n <= |ids|
    ensures AssignedAll(t, ids, n).numbers.Keys == set id | id in ids[..n]
  {
    if n > 0 {
      KnownExactly(t, ids, n - 1);
      assert ids[..n] == ids[..n - 1] + [ids[n - 1]];
    }
  }

  // A new instance gets the number after the last one given.
  lemma NewGetsNext(t: Table, ids: seq<Id>, i: nat)
    requires i < |ids|
    ensures var before, after := AssignedAll(t, ids, i).byNumber, AssignedAll(t, ids, i + 1).byNumber;
      if ids[i] in t.numbers then after == before
      else after == before + [ids[i]] && NumberAt(t, ids, i) == |before| + 1
  {
  }

  // Over a run of updates.
  function Run(updates: seq<seq<Id>>, n: nat): Table
    requires n <= |updates|
  {
    if n == 0 then Empty else AssignedAll(Run(updates, n - 1), updates[n - 1], |updates[n - 1]|)
  }

  lemma {:induction false} RunKeeps(updates: seq<seq<Id>>, m: nat, n: nat)
    requires m <= n <= |updates|
    ensures Inv(Run(updates, n)) && Run(updates, m).byNumber <= Run(updates, n).byNumber
    decreases n
  {
    if n > 0 {
      RunKeeps(updates, if m < n then m else n - 1, n - 1);
      AssignedAllKeeps(Run(updates, n - 1), updates[n - 1], |updates[n - 1]|);
    }
  }

  // The local id given in update u to the instance at place i.
  function GivenTo(service: nat, updates: seq<seq<Id>>, u: nat, i: nat): nat
    requires u < |updates| && i < |updates[u]|
  {
    LocalId(service, NumberAt(Run(updates, u), updates[u], i))
  }

  lemma NumberInRun(updates: seq<seq<Id>>, u: nat, i: nat)
    requires u < |updates| && i < |updates[u]|
    ensures var k, all := NumberAt(Run(updates, u), updates[u], i), Run(updates, |updates|).byNumber;
      1 <= k <= |all| && all[k - 1] == updates[u][i]
  {
    RunKeeps(updates, u, u);
    RunKeeps(updates, u + 1, |updates|);
    NumberBelongs(Run(updates, u), updates[u], i);
  }

  // Until the counter wraps, no local id is given to two different instances, in whichever updates.
  lemma NeverReused(service: nat, updates: seq<seq<Id>>, u: nat, i: nat, v: nat, j: nat)
    requires u < |updates| && i < |updates[u]| && v < |updates| && j < |updates[v]|
    requires |Run(updates, |updates|).byNumber| < WIDTH
    ensures GivenTo(service, updates, u, i) == GivenTo(service, updates, v, j) ==> updates[u][i] == updates[v][j]
  {
    NumberInRun(updates, u, i);
    NumberInRun(updates, v, j);
    LocalIdsDiffer(service, NumberAt(Run(updates, u), updates[u], i), service, NumberAt(Run(updates, v), updates[v], j));
  }

  // An instance that occurs in an update, once, and in the next one keeps its local id.
  lemma KeepsItsId(service: nat, updates: seq<seq<Id>>, u: nat, i: nat, j: nat)
    requires u + 1 < |updates| && i < |updates[u]| && j < |updates[u + 1]| && updates[u][i] == updates[u + 1][j]
    requires forall k :: 0 <= k < |updates[u]| && k != i ==> updates[u][k] != updates[u][i]
    ensures GivenTo(service, updates, u + 1, j) == GivenTo(service, updates, u, i)
  {
    RunKeeps(updates, u + 1, u + 1);
    KnownBy(Run(updates, u), updates[u], i, |updates[u]|);
    NumberBelongs(Run(updates, u + 1), updates[u + 1], j);
  }

  ghost function Localized(service: nat, numbers: map<Id, nat>): map<Id, nat> {
    map id | id in numbers :: LocalId(service, numbers[id])
  }

  lemma LocalizedMore(service: nat, numbers: map<Id, nat>, id: Id, number: nat)
    ensures Localized(service, numbers[id := number]) == Localized(service, numbers)[id := LocalId(service, number)]
  {
  }

  lemma NextCut(n: nat)
    ensures (n % WIDTH + 1) % WIDTH == (n + 1) % WIDTH
  {
  }

  class ServiceImpl {
    const serviceId: nat
    var idMap: map<Id, nat>    // instance_id_map_
    var nextId: nat            // instance_next_id_
    ghost var table: Table

    ghost predicate Valid()
      reads this
    {
      && Inv(table)
      && nextId == |table.byNumber| % WIDTH
      && idMap == Localized(serviceId, table.numbers)
    }

    constructor (serviceId: nat)
      ensures Valid() && table == Empty && this.serviceId == serviceId
    {
      this.serviceId, idMap, nextId, table := serviceId, map[], 0, Empty;
    }

    // One turn of either loop.
    method Assign(id: Id, made: map<Id, nat>, ghost was: map<Id, nat>, ghost t: Table)
      returns (local: nat, made': map<Id, nat>)
      requires idMap == Localized(serviceId, was) && made == Localized(serviceId, t.numbers)
      requires nextId == |t.byNumber| % WIDTH
      modifies this`nextId
      ensures made' == Localized(serviceId, Assigned(was, t, id).numbers)
      ensures nextId == |Assigned(was, t, id).byNumber| % WIDTH
      ensures local == LocalId(serviceId, Assigned(was, t, id).numbers[id])
    {
      ghost var number := if id in was then was[id] else |t.byNumber| + 1;
      LocalizedMore(serviceId, t.numbers, id, number);
      if id in idMap {
        local := idMap[id];
      } else {
        NextCut(|t.byNumber|);
        nextId := (nextId + 1) % WIDTH;
        local := serviceId * WIDTH + nextId;
      }
      made' := made[id := local];
    }

    // Either loop, for the instances ids[from..to].
    method AssignRange(ids: seq<Id>, from: nat, to: nat, made: map<Id, nat>, ghost was: Table)
      returns (locals: seq<nat>, made': map<Id, nat>)
      requires from <= to <= |ids| && idMap == Localized(serviceId, was.numbers)
      requires made == Localized(serviceId, AssignedAll(was, ids, from).numbers)
      requires nextId == |AssignedAll(was, ids, from).byNumber| % WIDTH
      modifies this`nextId
      ensures made' == Localized(serviceId, AssignedAll(was, ids, to).numbers)
      ensures nextId == |AssignedAll(was, ids, to).byNumber| % WIDTH
      ensures |locals| == to - from
      ensures forall i :: from <= i < to ==> locals[i - from] == LocalId(serviceId, NumberAt(was, ids, i))
    {
      made', locals := made, [];
      var n := from;
      while n < to
        invariant from <= n <= to && |locals| == n - from
        invariant made' == Localized(serviceId, AssignedAll(was, ids, n).numbers)
        invariant nextId == |AssignedAll(was, ids, n).byNumber| % WIDTH
        invariant forall i :: from <= i < n ==> locals[i - from] == LocalId(serviceId, NumberAt(was, ids, i))
      {
        var local;
        local, made' := Assign(ids[n], made', was.numbers, AssignedAll(was, ids, n));
        locals := locals + [local];
        n := n + 1;
      }
    }

    // Instances and isolated instances in turn; the new map replaces the old one at the end.
    method UpdateInstanceId(instances: seq<Id>, isolates: seq<Id>) returns (locals: seq<nat>)
      requires Valid()
      modifies this
      ensures Valid() && table == AssignedAll(old(table), instances + isolates, |instances + isolates|)
      ensures |locals| == |instances + isolates|
      ensures idMap.Keys == set id | id in instances + isolates
      ensures forall i :: 0 <= i < |locals| ==> locals[i] == LocalId(serviceId, NumberAt(old(table), instances + isolates, i))
    {
      var ids := instances + isolates;
      ghost var was := table;
      var first, made := AssignRange(ids, 0, |instances|, map[], was);
      var second, made' := AssignRange(ids, |instances|, |ids|, made, was);
      locals := first + second;
      forall i | 0 <= i < |locals|
        ensures locals[i] == LocalId(serviceId, NumberAt(was, ids, i))
      {
        assert i >= |first| ==> locals[i] == second[i - |first|];
      }
      AssignedAllKeeps(was, ids, |ids|);
      KnownExactly(was, ids, |ids|);
      assert ids[..|ids|] == ids;
      table := AssignedAll(was, ids, |ids|);
      idMap := made';
    }
  }
}
