// Any number of concurrent RemoteAwareQpsBucket::Allocate calls inside one window of every bucket and
// between two refreshes, interleaved at each atomic addition and subtraction
// (polaris/quota/quota_bucket_qps.cpp).
module QuotaConcurrency {

  // The shared counters of one bucket.
  datatype Counters = Counters(stat: int, left: int, needSync: int, limited: int)

  // Where a call is.  Buckets before `at` are behind it; `refused` is the bucket that had no room.
  datatype Place =
    | Add(at: nat)                          // before adding to bucket_stat_
    | Subtract(at: nat)                     // before subtracting from remote_token_left_
    | Sync(at: nat)                         // there was room: before adding to quota_need_sync_
    | Count(at: nat)                        // there was none: before adding to limit_request_
    | ReturnStat(at: nat, refused: nat)     // rolling back: before subtracting from bucket_stat_
    | ReturnLeft(at: nat, refused: nat)     // rolling back: before adding to remote_token_left_
    | Granted
    | Limited(refused: nat)

  datatype Call = Call(amount: nat, remote: bool, place: Place)

  datatype State = State(localMax: seq<int>, buckets: seq<Counters>, calls: seq<Call>)

  datatype Step = Enter(amount: nat, remote: bool) | Advance(call: nat)

  predicate Enabled(s: State, step: Step) {
    match step
    case Enter(_, _) => true
    case Advance(c) => c < |s.calls| && !s.calls[c].place.Granted? && !s.calls[c].place.Limited?
  }

  // The bucket after `at` has granted: the next one, or the end.
  function Next(at: nat, n: nat): Place {
    if at + 1 == n then Granted else Add(at + 1)
  }

  function NextReturn(at: nat, refused: nat): Place {
    if at == refused then Limited(refused) else ReturnStat(at + 1, refused)
  }

  // One atomic operation of a call on the bucket it is at: the bucket and the place afterwards.
  function Act(b: Counters, localMax: int, n: nat, call: Call): (Counters, Place) {
    match call.place
    case Add(at) =>
      var c := b.(stat := b.stat + call.amount);
      (c, if call.remote then Subtract(at)
          else if localMax - c.stat < 0 then ReturnStat(0, at)
          else Next(at, n))
    case Subtract(at) =>
      var c := b.(left := b.left - call.amount);
      (c, if c.left < 0 then Count(at) else Sync(at))
    case Sync(at) => (b.(needSync := b.needSync + call.amount), Next(at, n))
    case Count(at) => (b.(limited := b.limited + call.amount), ReturnStat(0, at))
    case ReturnStat(at, refused) =>
      (b.(stat := b.stat - call.amount), if call.remote then ReturnLeft(at, refused) else NextReturn(at, refused))
    case ReturnLeft(at, refused) => (b.(left := b.left + call.amount), NextReturn(at, refused))
    case Granted => (b, Granted)
    case Limited(refused) => (b, Limited(refused))
  }

  function At(place: Place): nat
    requires !place.Granted? && !place.Limited?
  {
    place.at
  }

  predicate PlaceInv(n: nat, call: Call) {
    match call.place
    case Add(at) => at < n
    case Subtract(at) => at < n && call.remote
    case Sync(at) => at < n && call.remote
    case Count(at) => at < n && call.remote
    case ReturnStat(at, refused) => at <= refused < n
    case ReturnLeft(at, refused) => at <= refused < n && call.remote
    case Granted => true
    case Limited(refused) => refused < n
  }

  ghost predicate Shape(s: State) {
    && |s.localMax| == |s.buckets| > 0
    && forall c :: 0 <= c < |s.calls| ==> PlaceInv(|s.buckets|, s.calls[c])
  }

  function Apply(s: State, step: Step): State
    requires Shape(s) && Enabled(s, step)
  {
    match step
    case Enter(amount, remote) => s.(calls := s.calls + [Call(amount, remote, Add(0))])
    case Advance(c) =>
      var call := s.calls[c];
      var b := At(call.place);
      var (counters, place) := Act(s.buckets[b], s.localMax[b], |s.buckets|, call);
      s.(buckets := s.buckets[b := counters], calls := s.calls[c := call.(place := place)])
  }

  // What a call contributes to a counter of bucket b, or to the grants of bucket b.
  datatype Account = HeldStat | HeldLeft | Synced | PassedLocal | PassedRemote | GrantedLocal | GrantedRemote

  predicate Holds(account: Account, call: Call, b: nat) {
    var p := call.place;
    match account
    case HeldStat =>
      (match p
       case Add(at) => b < at
       case Subtract(at) => b <= at
       case Sync(at) => b <= at
       case Count(at) => b <= at
       case ReturnStat(at, refused) => at <= b <= refused
       case ReturnLeft(at, refused) => at < b <= refused
       case Granted => true
       case Limited(_) => false)
    case HeldLeft =>
      call.remote &&
      (match p
       case Add(at) => b < at
       case Subtract(at) => b < at
       case Sync(at) => b <= at
       case Count(at) => b <= at
       case ReturnStat(at, refused) => at <= b <= refused
       case ReturnLeft(at, refused) => at <= b <= refused
       case Granted => true
       case Limited(_) => false)
    case Synced =>
      call.remote &&
      (match p
       case Add(at) => b < at
       case Subtract(at) => b < at
       case Sync(at) => b < at
       case Count(at) => b < at
       case ReturnStat(_, refused) => b < refused
       case ReturnLeft(_, refused) => b < refused
       case Granted => true
       case Limited(refused) => b < refused)
    case PassedLocal => !call.remote && (p.Granted? || (p.Add? && b < p.at))
    case PassedRemote =>
      call.remote && (p.Granted? || (p.Sync? && b <= p.at) || ((p.Add? || p.Subtract? || p.Count?) && b < p.at))
    case GrantedLocal => !call.remote && p.Granted?
    case GrantedRemote => call.remote && p.Granted?
  }

  function Share(account: Account, call: Call, b: nat): nat {
    if Holds(account, call, b) then call.amount else 0
  }

  function Sum(account: Account, calls: seq<Call>, b: nat): nat {
    if calls == [] then 0 else Share(account, calls[0], b) + Sum(account, calls[1..], b)
  }

  lemma {:induction false} SumUpdate(account: Account, calls: seq<Call>, c: nat, call: Call, b: nat)
    requires c < |calls|
    ensures Sum(account, calls[c := call], b) == Sum(account, calls, b) - Share(account, calls[c], b) + Share(account, call, b)
  {
    if c == 0 {
      assert calls[c := call][1..] == calls[1..];
    } else {
      assert calls[c := call][1..] == calls[1..][c - 1 := call];
      SumUpdate(account, calls[1..], c - 1, call, b);
    }
  }

  lemma {:induction false} SumAppend(account: Account, calls: seq<Call>, call: Call, b: nat)
    ensures Sum(account, calls + [call], b) == Sum(account, calls, b) + Share(account, call, b)
  {
    if calls == [] {
      assert calls + [call] == [call];
    } else {
      assert (calls + [call])[1..] == calls[1..] + [call];
      SumAppend(account, calls[1..], call, b);
    }
  }

  // If every call in one account is in the other, the first sum is no larger.
  lemma {:induction false} SumWithin(a: Account, a': Account, calls: seq<Call>, b: nat)
    requires forall c :: 0 <= c < |calls| ==> Holds(a, calls[c], b) ==> Holds(a', calls[c], b)
    ensures Sum(a, calls, b) <= Sum(a', calls, b)
  {
    if calls != [] {
      assert Holds(a, calls[0], b) ==> Holds(a', calls[0], b);
      assert forall c :: 0 <= c < |calls[1..]| ==> calls[1..][c] == calls[c + 1];
      SumWithin(a, a', calls[1..], b);
    }
  }

  function Room(x: int): nat {
    if x < 0 then 0 else x
  }

  // A bucket's counters are what they were at first plus what the calls hold; what has passed is
  // within what there was room for.
  ghost predicate BucketInv(first: Counters, localMax: int, b: Counters, calls: seq<Call>, i: nat) {
    && b.stat == first.stat + Sum(HeldStat, calls, i)
    && b.left == first.left - Sum(HeldLeft, calls, i)
    && b.needSync == first.needSync + Sum(Synced, calls, i)
    && Sum(PassedLocal, calls, i) <= Room(localMax - first.stat)
    && Sum(PassedRemote, calls, i) <= Room(first.left)
  }

  ghost predicate Inv(first: seq<Counters>, s: State) {
    && Shape(s)
    && |first| == |s.buckets|
    && forall i {:trigger s.buckets[i]} :: 0 <= i < |first| ==> BucketInv(first[i], s.localMax[i], s.buckets[i], s.calls, i)
  }

  // The bucket a call acts on.
  lemma ActedBucket(first: Counters, localMax: int, b: Counters, calls: seq<Call>, c: nat, n: nat, i: nat)
    requires c < |calls| && !calls[c].place.Granted? && !calls[c].place.Limited?
    requires PlaceInv(n, calls[c]) && At(calls[c].place) == i
    requires BucketInv(first, localMax, b, calls, i)
    ensures var (counters, place) := Act(b, localMax, n, calls[c]);
      var after := calls[c := calls[c].(place := place)];
      PlaceInv(n, after[c]) && BucketInv(first, localMax, counters, after, i)
  {
    var (counters, place) := Act(b, localMax, n, calls[c]);
    var call := calls[c].(place := place);
    SumUpdate(HeldStat, calls, c, call, i);
    SumUpdate(HeldLeft, calls, c, call, i);
    SumUpdate(Synced, calls, c, call, i);
    SumUpdate(PassedLocal, calls, c, call, i);
    SumUpdate(PassedRemote, calls, c, call, i);
    SumWithin(PassedLocal, HeldStat, calls[c := call], i);
    SumWithin(PassedRemote, HeldLeft, calls[c := call], i);
  }

  // Another bucket does not notice.
  lemma OtherBucket(first: Counters, localMax: int, b: Counters, d: Counters, localMax': int, calls: seq<Call>, c: nat, n: nat, i: nat)
    requires c < |calls| && !calls[c].place.Granted? && !calls[c].place.Limited?
    requires PlaceInv(n, calls[c]) && At(calls[c].place) != i && i < n
    requires BucketInv(first, localMax, b, calls, i)
    ensures var (_, place) := Act(d, localMax', n, calls[c]);
      BucketInv(first, localMax, b, calls[c := calls[c].(place := place)], i)
  {
    var (_, place) := Act(d, localMax', n, calls[c]);
    var call := calls[c].(place := place);
    SumUpdate(HeldStat, calls, c, call, i);
    SumUpdate(HeldLeft, calls, c, call, i);
    SumUpdate(Synced, calls, c, call, i);
    SumUpdate(PassedLocal, calls, c, call, i);
    SumUpdate(PassedRemote, calls, c, call, i);
  }

  lemma EnterKeeps(first: seq<Counters>, s: State, step: Step)
    requires Inv(first, s) && step.Enter?
    ensures Inv(first, Apply(s, step))
  {
    var t := Apply(s, step);
    var call := Call(step.amount, step.remote, Add(0));
    forall i | 0 <= i < |first|
      ensures BucketInv(first[i], t.localMax[i], t.buckets[i], t.calls, i)
    {
      SumAppend(HeldStat, s.calls, call, i);
      SumAppend(HeldLeft, s.calls, call, i);
      SumAppend(Synced, s.calls, call, i);
      SumAppend(PassedLocal, s.calls, call, i);
      SumAppend(PassedRemote, s.calls, call, i);
    }
  }

  lemma StepKeeps(first: seq<Counters>, s: State, step: Step)
    requires Inv(first, s) && Enabled(s, step)
    ensures Inv(first, Apply(s, step))
  {
    if step.Enter? {
      EnterKeeps(first, s, step);
    } else {
      var c := step.call;
      var n := |s.buckets|;
      var b := At(s.calls[c].place);
      ActedBucket(first[b], s.localMax[b], s.buckets[b], s.calls, c, n, b);
      forall i | 0 <= i < |first| && i != b
        ensures var (_, place) := Act(s.buckets[b], s.localMax[b], n, s.calls[c]);
          BucketInv(first[i], s.localMax[i], s.buckets[i], s.calls[c := s.calls[c].(place := place)], i)
      {
        OtherBucket(first[i], s.localMax[i], s.buckets[i], s.buckets[b], s.localMax[b], s.calls, c, n, i);
      }
    }
  }

  // A run and where it ends.
  ghost predicate Runs(s: State, steps: seq<Step>)
    decreases |steps|
  {
    steps == [] || (Shape(s) && Enabled(s, steps[0]) && Runs(Apply(s, steps[0]), steps[1..]))
  }

  ghost function After(s: State, steps: seq<Step>): State
    requires Runs(s, steps)
    decreases |steps|
  {
    if steps == [] then s else After(Apply(s, steps[0]), steps[1..])
  }

  lemma {:induction false} RunKeeps(first: seq<Counters>, s: State, steps: seq<Step>)
    requires Inv(first, s) && Runs(s, steps)
    ensures Inv(first, After(s, steps)) && After(s, steps).localMax == s.localMax
    decreases |steps|
  {
    if steps != [] {
      StepKeeps(first, s, steps[0]);
      RunKeeps(first, Apply(s, steps[0]), steps[1..]);
    }
  }

  ghost predicate Starts(s: State) {
    |s.localMax| == |s.buckets| > 0 && s.calls == []
  }

  // However the calls interleave, in every bucket the local grants fit into what the local quota had
  // room for, and the remote grants into the remote tokens left, at the start.
  lemma NoOverGrant(s: State, steps: seq<Step>, i: nat)
    requires Starts(s) && Runs(s, steps) && i < |s.buckets|
    ensures Sum(GrantedLocal, After(s, steps).calls, i) <= Room(s.localMax[i] - s.buckets[i].stat)
    ensures Sum(GrantedRemote, After(s, steps).calls, i) <= Room(s.buckets[i].left)
  {
    RunKeeps(s.buckets, s, steps);
    var t := After(s, steps);
    assert BucketInv(s.buckets[i], t.localMax[i], t.buckets[i], t.calls, i);
    SumWithin(GrantedLocal, PassedLocal, t.calls, i);
    SumWithin(GrantedRemote, PassedRemote, t.calls, i);
  }

  ghost predicate AtRest(s: State) {
    forall c :: 0 <= c < |s.calls| ==> s.calls[c].place.Granted? || s.calls[c].place.Limited?
  }

  lemma {:induction false} GrantsAreHeld(calls: seq<Call>, i: nat)
    requires forall c :: 0 <= c < |calls| ==> calls[c].place.Granted? || calls[c].place.Limited?
    ensures Sum(HeldStat, calls, i) == Sum(GrantedLocal, calls, i) + Sum(GrantedRemote, calls, i)
    ensures Sum(HeldLeft, calls, i) == Sum(GrantedRemote, calls, i)
  {
    if calls != [] {
      assert calls[0].place.Granted? || calls[0].place.Limited?;
      assert forall c :: 0 <= c < |calls[1..]| ==> calls[1..][c] == calls[c + 1];
      GrantsAreHeld(calls[1..], i);
    }
  }

  // When every call has returned, limited calls have left nothing behind in the quota counters.
  lemma ConservedAtRest(s: State, steps: seq<Step>, i: nat)
    requires Starts(s) && Runs(s, steps) && i < |s.buckets| && AtRest(After(s, steps))
    ensures var t := After(s, steps);
      && |t.buckets| == |s.buckets|
      && t.buckets[i].stat == s.buckets[i].stat + Sum(GrantedLocal, t.calls, i) + Sum(GrantedRemote, t.calls, i)
      && t.buckets[i].left == s.buckets[i].left - Sum(GrantedRemote, t.calls, i)
  {
    RunKeeps(s.buckets, s, steps);
    var t := After(s, steps);
    assert BucketInv(s.buckets[i], t.localMax[i], t.buckets[i], t.calls, i);
    GrantsAreHeld(t.calls, i);
  }

  // At every moment, what a bucket has to report is at least its remote grants; in the longest window
  // it is exactly those, since no call that has counted there can still be refused.
  lemma ReportsCoverGrants(s: State, steps: seq<Step>, i: nat)
    requires Starts(s) && Runs(s, steps) && i < |s.buckets|
    ensures var t := After(s, steps);
      && |t.buckets| == |s.buckets|
      && t.buckets[i].needSync >= s.buckets[i].needSync + Sum(GrantedRemote, t.calls, i)
      && (i == |s.buckets| - 1 ==> t.buckets[i].needSync == s.buckets[i].needSync + Sum(GrantedRemote, t.calls, i))
  {
    RunKeeps(s.buckets, s, steps);
    var t := After(s, steps);
    assert BucketInv(s.buckets[i], t.localMax[i], t.buckets[i], t.calls, i);
    SumWithin(GrantedRemote, Synced, t.calls, i);
    if i == |s.buckets| - 1 {
      SumWithin(Synced, GrantedRemote, t.calls, i);
    }
  }
}
