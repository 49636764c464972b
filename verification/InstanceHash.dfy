// Hashes of service instances (ServiceDataImpl::ParseInstancesData and HandleHashConflict in
// polaris/model/model.cpp).
module InstanceHash {
  type Id(==, !new)
  type Host(==, !new)

  type Hash = nat

  const RETRIES: nat := 10

  // hash is the hash of the id, retries those of the retry strings made from it.
  datatype Instance = Instance(id: Id, host: Host, port: int, isolate: bool, weight: nat, hash: Hash, retries: seq<Hash>)

  // An instance that was not skipped, with the hash it was given.
  datatype Kept = Kept(instance: Instance, hash: Hash)

  // holders: the hashes in use and who holds them, as places in `kept`.
  datatype Parsed = Parsed(kept: seq<Kept>, holders: map<Hash, nat>)

  ghost function Above(used: set<Hash>, c: nat): set<Hash> {
    set u | u in used && u >= c
  }

  lemma AboveShrinks(used: set<Hash>, c: Hash)
    requires c in used
    ensures Above(used, c) == Above(used, c + 1) + {c} && |Above(used, c)| == |Above(used, c + 1)| + 1
  {
    assert Above(used, c) == Above(used, c + 1) + {c};
  }

  // The search from 1 upwards ends no later than one past the number of hashes in use.
  ghost function FirstUnused(used: set<Hash>, c: Hash): (r: Hash)
    ensures c <= r <= c + |Above(used, c)| && r !in used
    decreases |Above(used, c)|
  {
    if c !in used then c
    else
      AboveShrinks(used, c);
      FirstUnused(used, c + 1)
  }

  lemma AllAbove(used: set<Hash>)
    ensures |Above(used, 1)| <= |used|
  {
    SubsetSize(Above(used, 1), used);
  }

  lemma {:induction false} SubsetSize(a: set<Hash>, b: set<Hash>)
    requires a <= b
    ensures |a| <= |b|
  {
    if a != {} {
      var x :| x in a;
      SubsetSize(a - {x}, b - {x});
    }
  }

  // The first retry from `n` on whose hash is free, or else the smallest free hash above 0.
  ghost function Resolved(used: set<Hash>, retries: seq<Hash>, n: nat): (r: Hash)
    ensures r !in used
    decreases |retries| - n
  {
    if n >= |retries| then
      AllAbove(used);
      FirstUnused(used, 1)
    else if retries[n] !in used then retries[n]
    else Resolved(used, retries, n + 1)
  }

  // The search skips only hashes in use.
  lemma {:induction false} SmallestUnused(used: set<Hash>, c: Hash, h: Hash)
    requires c <= h < FirstUnused(used, c)
    ensures h in used
    decreases |Above(used, c)|
  {
    AboveShrinks(used, c);
    if h > c {
      SmallestUnused(used, c + 1, h);
    }
  }

  // The first free retry from `n` on is 0.
  ghost predicate ZeroIsFirst(used: set<Hash>, retries: seq<Hash>, n: nat) {
    && 0 !in used
    && exists k :: n <= k < |retries| && retries[k] == 0 && forall m :: n <= m < k ==> retries[m] in used
  }

  // A conflict is resolved to 0 exactly if 0 is free and is the hash of the first free retry.
  lemma {:induction false} ZeroExactly(used: set<Hash>, retries: seq<Hash>, n: nat)
    ensures Resolved(used, retries, n) == 0 <==> ZeroIsFirst(used, retries, n)
    decreases |retries| - n
  {
    if n < |retries| && retries[n] in used {
      ZeroExactly(used, retries, n + 1);
      if ZeroIsFirst(used, retries, n + 1) {
        var k :| n + 1 <= k < |retries| && retries[k] == 0 && forall m :: n + 1 <= m < k ==> retries[m] in used;
        assert forall m :: n <= m < k ==> retries[m] in used;
      }
    } else if n >= |retries| {
      AllAbove(used);
    }
  }

  // h is the first retry that is not in use or, if all are, the smallest number from 1 on that is not.
  ghost predicate FirstFree(used: set<Hash>, retries: seq<Hash>, h: Hash) {
    && h !in used
    && ((exists n :: 0 <= n < |retries| && h == retries[n] && forall m :: 0 <= m < n ==> retries[m] in used)
        || ((forall m :: 0 <= m < |retries| ==> retries[m] in used) && 1 <= h && forall c :: 1 <= c < h ==> c in used))
  }

  // That is what a conflict is resolved to.
  lemma {:induction false} ResolvedIsFirstFree(used: set<Hash>, retries: seq<Hash>, n: nat)
    requires n <= |retries| && forall m :: 0 <= m < n ==> retries[m] in used
    ensures FirstFree(used, retries, Resolved(used, retries, n))
    decreases |retries| - n
  {
    if n < |retries| && retries[n] in used {
      ResolvedIsFirstFree(used, retries, n + 1);
    } else if n < |retries| {
      assert Resolved(used, retries, n) == retries[n];
    } else {
      AllAbove(used);
      forall c | 1 <= c < Resolved(used, retries, n) ensures c in used {
        SmallestUnused(used, 1, c);
      }
    }
  }

  // `probes` counts the candidates looked at by the last search.
  method HandleHashConflict(used: set<Hash>, retries: seq<Hash>) returns (h: Hash, ghost probes: nat)
    requires |retries| == RETRIES
    ensures h == Resolved(used, retries, 0) && h !in used
    ensures h !in retries ==> 1 <= h <= |used| + 1 && forall c :: 1 <= c < h ==> c in used
    ensures FirstFree(used, retries, h)
    ensures probes <= |used| + 1
  {
    probes := 0;
    var retry := 0;
    while retry < RETRIES
      invariant retry <= RETRIES
      invariant Resolved(used, retries, retry) == Resolved(used, retries, 0)
      invariant forall m :: 0 <= m < retry ==> retries[m] in used
    {
      var hash := retries[retry];
      retry := retry + 1;
      if hash !in used {
        return hash, probes;
      }
    }
    AllAbove(used);
    var candidate := 1;
    probes := 1;
    while candidate in used
      invariant 1 <= candidate && candidate + |Above(used, candidate)| <= |used| + 1
      invariant FirstUnused(used, candidate) == FirstUnused(used, 1) == Resolved(used, retries, 0)
      invariant probes == candidate
      decreases |Above(used, candidate)|
    {
      AboveShrinks(used, candidate);
      candidate := candidate + 1;
      probes := probes + 1;
    }
    h := candidate;
    forall c | 1 <= c < h ensures c in used {
      SmallestUnused(used, 1, c);
    }
  }

  ghost predicate Duplicate(a: Instance, b: Instance) {
    a.port == b.port && a.host == b.host
  }

  ghost predicate HeldRightly(p: Parsed, h: Hash)
    requires h in p.holders
  {
    p.holders[h] < |p.kept| && p.kept[p.holders[h]].hash == h
  }

  ghost predicate HoldersInv(p: Parsed) {
    forall h {:trigger HeldRightly(p, h)} :: h in p.holders ==> HeldRightly(p, h)
  }

  // One instance: it takes its own hash, or is skipped as a duplicate of the holder, or gets another
  // hash.  A resolved hash of 0 is not taken: the instance stays with the hash in conflict.
  ghost function Added(p: Parsed, i: Instance): Parsed
    requires HoldersInv(p)
  {
    var h := i.hash;
    assert h in p.holders ==> HeldRightly(p, h);
    if h !in p.holders then Parsed(p.kept + [Kept(i, h)], p.holders[h := |p.kept|])
    else if Duplicate(i, p.kept[p.holders[h]].instance) then p
    else
      var r := Resolved(p.holders.Keys, i.retries, 0);
      if r == 0 then p.(kept := p.kept + [Kept(i, h)])
      else Parsed(p.kept + [Kept(i, r)], p.holders[r := |p.kept|])
  }

  // A conflict that is resolved to 0.
  ghost predicate Unresolved(p: Parsed, i: Instance)
    requires HoldersInv(p)
  {
    var h := i.hash;
    assert h in p.holders ==> HeldRightly(p, h);
    && h in p.holders
    && !Duplicate(i, p.kept[p.holders[h]].instance)
    && ZeroIsFirst(p.holders.Keys, i.retries, 0)
  }

  // The first n instances of a list.
  ghost function ParsedAll(list: seq<Instance>, n: nat): (p: Parsed)
    requires n <= |list|
    ensures HoldersInv(p)
  {
    if n == 0 then Parsed([], map[])
    else
      AddedHolds(ParsedAll(list, n - 1), list[n - 1]);
      Added(ParsedAll(list, n - 1), list[n - 1])
  }

  // Some conflict among them is resolved to 0.
  ghost predicate SomeUnresolved(list: seq<Instance>, n: nat)
    requires n <= |list|
  {
    n > 0 && (SomeUnresolved(list, n - 1) || Unresolved(ParsedAll(list, n - 1), list[n - 1]))
  }

  ghost predicate DistinctHashes(kept: seq<Kept>) {
    forall i, j :: 0 <= i < j < |kept| ==> kept[i].hash != kept[j].hash
  }

  ghost predicate Holds(p: Parsed, i: nat)
    requires i < |p.kept|
  {
    p.kept[i].hash in p.holders && p.holders[p.kept[i].hash] == i
  }

  ghost predicate AllHold(p: Parsed) {
    forall i {:trigger Holds(p, i)} :: 0 <= i < |p.kept| ==> Holds(p, i)
  }

  lemma HoldersDiffer(p: Parsed)
    requires AllHold(p)
    ensures DistinctHashes(p.kept)
  {
    forall i, j | 0 <= i < j < |p.kept|
      ensures p.kept[i].hash != p.kept[j].hash
    {
      assert Holds(p, i) && Holds(p, j);
    }
  }

  lemma AddedHolds(p: Parsed, i: Instance)
    requires HoldersInv(p)
    ensures HoldersInv(Added(p, i))
    ensures AllHold(p) && !Unresolved(p, i) ==> AllHold(Added(p, i))
  {
    ZeroExactly(p.holders.Keys, i.retries, 0);
    var q := Added(p, i);
    assert forall k :: 0 <= k < |p.kept| ==> q.kept[k] == p.kept[k];
    forall h | h in q.holders
      ensures HeldRightly(q, h)
    {
      assert h in p.holders ==> HeldRightly(p, h);
    }
    if AllHold(p) && !Unresolved(p, i) {
      forall k | 0 <= k < |q.kept|
        ensures Holds(q, k)
      {
        assert k < |p.kept| ==> Holds(p, k);
      }
    }
  }

  lemma AddedCollides(p: Parsed, i: Instance)
    requires HoldersInv(p) && (Unresolved(p, i) || !DistinctHashes(p.kept))
    ensures !DistinctHashes(Added(p, i).kept)
  {
    var q := Added(p, i);
    ZeroExactly(p.holders.Keys, i.retries, 0);
    if Unresolved(p, i) {
      assert HeldRightly(p, i.hash);
      assert q.kept[p.holders[i.hash]].hash == q.kept[|p.kept|].hash;
    } else {
      var a, b :| 0 <= a < b < |p.kept| && p.kept[a].hash == p.kept[b].hash;
      assert q.kept[a] == p.kept[a] && q.kept[b] == p.kept[b];
    }
  }

  // All kept instances have different hashes if and only if no conflict was resolved to 0.
  lemma {:induction false} DistinctUnlessZero(list: seq<Instance>, n: nat)
    requires n <= |list|
    ensures DistinctHashes(ParsedAll(list, n).kept) <==> !SomeUnresolved(list, n)
    ensures !SomeUnresolved(list, n) ==> AllHold(ParsedAll(list, n))
  {
    if n > 0 {
      var p, i := ParsedAll(list, n - 1), list[n - 1];
      DistinctUnlessZero(list, n - 1);
      AddedHolds(p, i);
      if SomeUnresolved(list, n) {
        AddedCollides(p, i);
      } else {
        HoldersDiffer(ParsedAll(list, n));
      }
    }
  }

  // A hash function that is never 0 on the retry strings gives different hashes for any list.
  lemma {:induction false} DistinctIfNeverZero(list: seq<Instance>)
    requires forall i :: 0 <= i < |list| ==> 0 !in list[i].retries
    ensures DistinctHashes(ParsedAll(list, |list|).kept)
  {
    AllResolved(list, |list|);
    DistinctUnlessZero(list, |list|);
  }

  lemma {:induction false} AllResolved(list: seq<Instance>, n: nat)
    requires n <= |list| && forall i :: 0 <= i < |list| ==> 0 !in list[i].retries
    ensures !SomeUnresolved(list, n)
  {
    if n > 0 {
      AllResolved(list, n - 1);
      assert !ZeroIsFirst(ParsedAll(list, n - 1).holders.Keys, list[n - 1].retries, 0);
    }
  }

  // With a first retry that hashes to 0, two instances on different hosts with equal hashes keep them.
  lemma ZeroRetryCollides(a: Instance, b: Instance)
    requires a.host != b.host && a.hash == b.hash != 0 && b.retries != [] && b.retries[0] == 0
    ensures SomeUnresolved([a, b], 2) && !DistinctHashes(ParsedAll([a, b], 2).kept)
  {
    var none := ParsedAll([a, b], 0);
    assert none == Parsed([], map[]);
    var one := ParsedAll([a, b], 1);
    assert one == Added(none, [a, b][0]);
    assert one == Parsed([Kept(a, a.hash)], map[a.hash := 0]);
    assert Unresolved(one, b);
    DistinctUnlessZero([a, b], 2);
  }

  lemma {:induction false} KeptFromList(list: seq<Instance>, n: nat)
    requires n <= |list|
    ensures |ParsedAll(list, n).kept| <= n
    ensures forall k :: 0 <= k < |ParsedAll(list, n).kept| ==> ParsedAll(list, n).kept[k].instance in list
  {
    if n > 0 {
      KeptFromList(list, n - 1);
    }
  }

  // ---------------------------------------------------------------------------------------------
  // Which instances are kept, from what is kept before
  // ---------------------------------------------------------------------------------------------

  ghost function HashesOf(kept: seq<Kept>): set<Hash> {
    set k | 0 <= k < |kept| :: kept[k].hash
  }

  // The first kept instance with the hash.
  ghost predicate FirstWith(kept: seq<Kept>, h: Hash, k: nat) {
    k < |kept| && kept[k].hash == h && forall j :: 0 <= j < k ==> kept[j].hash != h
  }

  // The instance is skipped: the first one with its hash has the same host and port.
  ghost predicate Skipped(kept: seq<Kept>, i: Instance) {
    exists k: nat :: FirstWith(kept, i.hash, k) && Duplicate(i, kept[k].instance)
  }

  // The hash it is kept with: its own if that is not in use; otherwise the first free one, but its own
  // again if that would be 0.
  ghost predicate GetsHash(kept: seq<Kept>, i: Instance, h: Hash) {
    if i.hash !in HashesOf(kept) then h == i.hash
    else if ZeroIsFirst(HashesOf(kept), i.retries, 0) then h == i.hash
    else FirstFree(HashesOf(kept), i.retries, h)
  }

  ghost predicate HeldFirst(p: Parsed, h: Hash) {
    (h in p.holders <==> h in HashesOf(p.kept)) && (h in p.holders ==> FirstWith(p.kept, h, p.holders[h]))
  }

  ghost predicate HoldersFirst(p: Parsed) {
    forall h {:trigger HeldFirst(p, h)} :: HeldFirst(p, h)
  }

  lemma HashesAppend(kept: seq<Kept>, k: Kept)
    ensures HashesOf(kept + [k]) == HashesOf(kept) + {k.hash}
  {
    var all := kept + [k];
    assert forall j :: 0 <= j < |kept| ==> all[j] == kept[j];
    assert all[|kept|] == k;
  }

  lemma FirstStays(kept: seq<Kept>, more: Kept, h: Hash, k: nat)
    ensures FirstWith(kept, h, k) ==> FirstWith(kept + [more], h, k)
    ensures more.hash == h && h !in HashesOf(kept) ==> FirstWith(kept + [more], h, |kept|)
  {
    var all := kept + [more];
    assert forall j :: 0 <= j < |kept| ==> all[j] == kept[j];
    assert forall j :: 0 <= j < |kept| ==> kept[j].hash in HashesOf(kept);
  }

  // A hash is held by the first kept instance that has it.
  lemma AddedHoldersFirst(p: Parsed, i: Instance)
    requires HoldersInv(p) && HoldersFirst(p)
    ensures HoldersFirst(Added(p, i))
  {
    var q := Added(p, i);
    if q != p {
      var more := q.kept[|p.kept|];
      assert q.kept == p.kept + [more];
      HashesAppend(p.kept, more);
      assert HeldFirst(p, i.hash);
      forall h ensures HeldFirst(q, h) {
        assert HeldFirst(p, h);
        FirstStays(p.kept, more, h, if h in p.holders then p.holders[h] else 0);
      }
    }
  }

  lemma {:induction false} ParsedHoldersFirst(list: seq<Instance>, n: nat)
    requires n <= |list|
    ensures HoldersFirst(ParsedAll(list, n))
  {
    if n > 0 {
      ParsedHoldersFirst(list, n - 1);
      AddedHoldersFirst(ParsedAll(list, n - 1), list[n - 1]);
    } else {
      assert ParsedAll(list, 0).kept == [];
    }
  }

  // Every instance of the list is kept, after those before it, unless the first with its hash has the
  // same host and port.
  lemma KeptUnlessDuplicate(list: seq<Instance>, n: nat)
    requires n < |list|
    ensures var kept, after, i := ParsedAll(list, n).kept, ParsedAll(list, n + 1).kept, list[n];
      if Skipped(kept, i) then after == kept
      else |after| == |kept| + 1 && after[..|kept|] == kept && after[|kept|].instance == i && GetsHash(kept, i, after[|kept|].hash)
  {
    var p, i := ParsedAll(list, n), list[n];
    ParsedHoldersFirst(list, n);
    assert HeldFirst(p, i.hash);
    assert p.holders.Keys == HashesOf(p.kept) by {
      forall h ensures h in p.holders.Keys <==> h in HashesOf(p.kept) { assert HeldFirst(p, h); }
    }
    assert i.hash in p.holders ==> HeldRightly(p, i.hash);
    ZeroExactly(p.holders.Keys, i.retries, 0);
    ResolvedIsFirstFree(p.holders.Keys, i.retries, 0);
    forall k: nat | FirstWith(p.kept, i.hash, k)
      ensures i.hash in p.holders && k == p.holders[i.hash]
    {
      assert p.kept[k].hash in HashesOf(p.kept);
    }
    assert Added(p, i).kept == p.kept || Added(p, i).kept[..|p.kept|] == p.kept;
  }

  predicate Isolated(i: Instance) {
    i.isolate || i.weight == 0
  }

  ghost predicate HasPlace(kept: seq<Kept>, isolates: set<nat>, byId: map<Id, nat>, k: nat)
    requires k < |kept|
  {
    var i := kept[k].instance;
    if Isolated(i) then k in isolates else k !in isolates && i.id in byId && byId[i.id] >= k
  }

  ghost predicate NamesOne(kept: seq<Kept>, byId: map<Id, nat>, id: Id)
    requires id in byId
  {
    byId[id] < |kept| && kept[byId[id]].instance.id == id && !Isolated(kept[byId[id]].instance)
  }

  // Where the instances go: isolated ones into a set, the others under their id, where a later one
  // replaces an earlier one.
  ghost predicate Filed(kept: seq<Kept>, isolates: set<nat>, byId: map<Id, nat>) {
    && (forall k :: k in isolates ==> k < |kept|)
    && (forall k {:trigger HasPlace(kept, isolates, byId, k)} :: 0 <= k < |kept| ==> HasPlace(kept, isolates, byId, k))
    && (forall id {:trigger NamesOne(kept, byId, id)} :: id in byId ==> NamesOne(kept, byId, id))
  }

  lemma FiledMore(kept: seq<Kept>, isolates: set<nat>, byId: map<Id, nat>, k: Kept)
    requires Filed(kept, isolates, byId)
    ensures if Isolated(k.instance) then Filed(kept + [k], isolates + {|kept|}, byId)
            else Filed(kept + [k], isolates, byId[k.instance.id := |kept|])
  {
    var isolates' := if Isolated(k.instance) then isolates + {|kept|} else isolates;
    var byId' := if Isolated(k.instance) then byId else byId[k.instance.id := |kept|];
    forall j | 0 <= j < |kept + [k]|
      ensures HasPlace(kept + [k], isolates', byId', j)
    {
      assert j < |kept| ==> HasPlace(kept, isolates, byId, j);
    }
    forall id | id in byId'
      ensures NamesOne(kept + [k], byId', id)
    {
      assert id in byId ==> NamesOne(kept, byId, id);
    }
  }

  // One turn of the loop up to the hash.
  method AddInstance(kept: seq<Kept>, holders: map<Hash, nat>, i: Instance)
    returns (kept': seq<Kept>, holders': map<Hash, nat>, skipped: bool)
    requires HoldersInv(Parsed(kept, holders)) && |i.retries| == RETRIES
    ensures Parsed(kept', holders') == Added(Parsed(kept, holders), i)
    ensures skipped ==> kept' == kept
    ensures !skipped ==> |kept'| == |kept| + 1 && kept' == kept + [kept'[|kept|]] && kept'[|kept|].instance == i
  {
    kept', holders', skipped := kept, holders, false;
    var h := i.hash;
    if h !in holders {
      holders' := holders[h := |kept|];
    } else {
      assert HeldRightly(Parsed(kept, holders), h);
      var holder := kept[holders[h]].instance;
      if i.port == holder.port && i.host == holder.host {
        skipped := true;
        return;
      }
      var r, _ := HandleHashConflict(holders.Keys, i.retries);
      if r != 0 {
        h := r;
        holders' := holders[h := |kept|];
      }
    }
    kept' := kept + [Kept(i, h)];
  }

  // The rest of the turn.
  method FileInstance(kept: seq<Kept>, isolates: set<nat>, byId: map<Id, nat>, k: Kept)
    returns (isolates': set<nat>, byId': map<Id, nat>)
    requires Filed(kept, isolates, byId)
    ensures Filed(kept + [k], isolates', byId')
  {
    isolates', byId' := isolates, byId;
    FiledMore(kept, isolates, byId, k);
    if Isolated(k.instance) {
      isolates' := isolates + {|kept|};
    } else {
      byId' := byId[k.instance.id := |kept|];
    }
  }

  method ParseInstances(list: seq<Instance>) returns (kept: seq<Kept>, isolates: set<nat>, byId: map<Id, nat>)
    requires forall i :: 0 <= i < |list| ==> |list[i].retries| == RETRIES
    ensures kept == ParsedAll(list, |list|).kept
    ensures |kept| <= |list| && forall k :: 0 <= k < |kept| ==> kept[k].instance in list
    ensures Filed(kept, isolates, byId)
    ensures forall k :: 0 <= k < |kept| ==> (k in isolates <==> kept[k].instance.isolate || kept[k].instance.weight == 0)
    ensures DistinctHashes(kept) <==> !SomeUnresolved(list, |list|)
  {
    var holders: map<Hash, nat> := map[];
    kept, isolates, byId := [], {}, map[];
    var n := 0;
    while n < |list|
      invariant n <= |list| && Parsed(kept, holders) == ParsedAll(list, n)
      invariant Filed(kept, isolates, byId)
    {
      var more, holders', skipped := AddInstance(kept, holders, list[n]);
      if !skipped {
        isolates, byId := FileInstance(kept, isolates, byId, more[|kept|]);
      }
      kept, holders := more, holders';
      n := n + 1;
    }
    KeptFromList(list, n);
    DistinctUnlessZero(list, n);
    forall k | 0 <= k < |kept|
      ensures k in isolates <==> kept[k].instance.isolate || kept[k].instance.weight == 0
    {
      assert HasPlace(kept, isolates, byId, k);
    }
  }
}
